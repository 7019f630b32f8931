# Analog watch face for Pebble: a Dafny model

This project models the core of a Pebble analog watch face, written in C. It also models one
helper function from the face's JavaScript configuration page. The face draws:

- an hour hand and a minute hand that grow out from the centre when the app starts;
- a shadow under each hand, in a colour derived from the background through a fixed table;
- a peg at the centre.

The user picks the four colours on the configuration page. The watch receives them in a
message, stores them, and applies them at once.

The model has six modules.

- `CArith` (carith.dfy): C's truncating division and bitwise `&` on unbounded integers, with
  the division facts the proofs rest on.
- `ShadowTable` (shadow.dfy):
  - the 8-bit `argb` colour encoding;
  - `alpha` and the 256-entry `shadowtable`, kept as its 16 source lines of 16 entries;
  - the lookup `shadowtable[alpha & bg.argb]`.
  
  The module proves a closed reading of the table. Entry `i` is the opaque colour whose
  channels are those of `i` shaded at the level that `i`'s alpha bits name. With the mask, a
  background with its top alpha bit set gets every channel one step darker. Any other
  background gets opaque black.
- `Geometry` (geometry.dfy):
  - the stored hour of `tick_handler`;
  - `anim_percentage`;
  - the minute and hour angles;
  - the hand lengths and the radius gates, under two expansions of the macro
    `HAND_MARGIN_OUTER` (see Findings);
  - the hand end points, with `sin_lookup` and `cos_lookup` as functions bounded by
    `TRIG_MAX_RATIO`.
- `Drawing` (render.dfy):
  - `Render`: the sequence of graphics calls `update_proc` makes;
  - `Paint`: what such a sequence leaves on screen, as marks with their colours;
  - `Picture`: the frame described directly, back to front.
  
  The module proves that the calls paint that picture.
- `WatchFace` (watchface.dfy): the face's statics as the class `Face`. Its methods are the
  handlers:
  - `tick_handler`;
  - `window_load`;
  - `inbox_received_handler`;
  - `radius_update`;
  - `update_proc`.
  
  Each method is proved against a function of the old state. Next to the class are lemmas
  about the settings update: it is idempotent, it keeps the shadow consistent, and persisting
  a message then loading gives the live colours.
- `QueryParam` (queryparam.dfy): `getQueryParam` from the configuration page, as a method with
  its loop. It is proved against a specification function, together with a model of
  JavaScript's `split`, `substring(1)` and `||`.

## Model

| member | source | states |
|---|---|---|
| CArith.TruncDiv | src/main.c:149-150 | computes C's truncating quotient: Euclidean division of the magnitude, negated for a negative numerator |
| CArith.TruncDivRoundsTowardZero | src/main.c:149-150 | the exact quotient lies in `[q, q + 1)` for a non-negative numerator and in `(q - 1, q]` for a negative one, i.e. it is rounded toward zero |
| CArith.TruncDivNotEuclidean | src/main.c:157-158 | on a negative numerator truncation differs from Dafny's division: -4 / 10 truncates to 0, not -1 |
| CArith.BitAnd | src/main.c:67 | `x & y` is no larger than either operand |
| ShadowTable.Unpack | src/main.c:38-39 | a colour byte splits into two alpha bits and three 2-bit channels that pack back into it |
| ShadowTable.UnpackPack | src/main.c:38-39 | packing valid fields gives a byte from which unpacking recovers the same fields |
| ShadowTable.ShadeChannel | src/main.c:38 | a shaded channel is never lighter than the original; full shade gives 0 and no shade keeps the channel |
| ShadowTable.Shaded | src/main.c:21-36 | a table colour is opaque and is no lighter than its index in any channel |
| ShadowTable.TableEntry | src/main.c:21-36 | every entry of the copied table equals the shaded colour of its index, row by row |
| ShadowTable.TableIsShading | src/main.c:21-36 | entry `i` (row `i / 16`, column `i % 16`) is `i` shaded at the level its alpha bits name |
| ShadowTable.AlphaMask | src/main.c:39 | `0b10111111 & c` clears only the low alpha bit of `c` and keeps every channel |
| ShadowTable.ShadowIndex | src/main.c:67 | computes the table index `alpha & bg.argb` |
| ShadowTable.ShadowFor | src/main.c:67 | computes `shadowtable[alpha & bg.argb]`, read at row `i / 16` and column `i % 16` |
| ShadowTable.ShadowIndexFields | src/main.c:67 | the lookup index is the background with its low alpha bit cleared |
| ShadowTable.ShadowForFields | src/main.c:67 | the looked-up shadow is the shaded colour of the masked background |
| ShadowTable.ShadowForMeaning | src/main.c:67 | with the top alpha bit set, the shadow is the background one step darker per channel; otherwise it is opaque black |
| ShadowTable.ShadowNoLighter | src/main.c:209 | the shadow is opaque and no lighter than the background in any channel |
| ShadowTable.TableOpaque | src/main.c:21-36 | every table entry lies in 192..255, so both alpha bits are set |
| ShadowTable.ShadowIndexInBounds | src/main.c:67 | the index never exceeds 191, so it is in bounds, and the shadow is at least 192 |
| Geometry.StoredHour | src/main.c:118-119 | the stored hour is `tm_hour` or `tm_hour - 12`; for hours 0..23 it lies in 0..12, is congruent mod 12, and is 12 exactly at noon |
| Geometry.AnimPercentage | src/main.c:240-242 | computes `dist * max / ANIMATION_NORMALIZED_MAX`, truncated toward zero |
| Geometry.AnimPercentageRange | src/main.c:240-242 | for progress 0..`ANIMATION_NORMALIZED_MAX` the result is in 0..max; it is 0 at the start and max at the end |
| Geometry.AnimPercentageMonotone | src/main.c:240-242 | more progress never gives a smaller result |
| Geometry.MinuteAngle | src/main.c:140 | computes `TRIG_MAX_ANGLE * minutes / 60` |
| Geometry.HourBase | src/main.c:139 | computes `TRIG_MAX_ANGLE * hours / 12` |
| Geometry.HourAngle | src/main.c:139-141 | computes the hour angle: the base plus `minute_angle / TRIG_MAX_ANGLE * (TRIG_MAX_ANGLE / 12)`, truncated when passed to the lookups |
| Geometry.MinuteAngleInTurn | src/main.c:140 | minute angles increase strictly through the hour and stay within one turn |
| Geometry.HourAngleOnTheHour | src/main.c:139-141 | at minute 0 the hour angle is the hour's base angle `0x10000 * h / 12` |
| Geometry.HourAngleCreeps | src/main.c:141 | within an hour, the hour angle never decreases as the minutes pass |
| Geometry.HourAngleWithinHour | src/main.c:139-141 | through minute 59, the hour angle stays at or above this hour's base and below the next hour's |
| Geometry.NoonIsFullTurn | src/main.c:139-141 | a stored 12 draws one full turn beyond 0, i.e. at the same place as midnight |
| Geometry.MinuteLength | src/main.c:149-150 | computes `s_radius - HAND_MARGIN_OUTER` under the given macro expansion |
| Geometry.HourLength | src/main.c:157-158 | computes `s_radius - HAND_MARGIN_OUTER - 0.3 * s_radius`, truncated toward zero, under the given expansion |
| Geometry.HandsShown | src/main.c:166 | the outer gate `(s_radius - HAND_MARGIN_OUTER) > HAND_MARGIN_INNER` |
| Geometry.HourShown | src/main.c:167 | the hour gate `s_radius > 2 * HAND_MARGIN_OUTER` |
| Geometry.MinuteShown | src/main.c:174 | the minute gate `s_radius > HAND_MARGIN_OUTER` |
| Geometry.AsWrittenGates | src/main.c:166-186 | as expanded, no hand is drawn up to radius 13; beyond it the minute hand always is; the hour hand also needs radius above 17; a drawn minute hand has positive length |
| Geometry.AsWrittenHourHandVanishes | src/main.c:157-167 | as expanded, at radius 18 and 19 the hour hand passes all its gates with length 0 |
| Geometry.IntendedHandsHaveLength | src/main.c:164-186 | with the margin as a value, every hand that passes its gates has positive length |
| Geometry.ScaledWithin | src/main.c:149-162 | `v * length / TRIG_MAX_RATIO` with a bounded `v` lies within plus or minus length |
| Geometry.HandEnd | src/main.c:148-163 | computes an end point: `sin_lookup(angle) * length / TRIG_MAX_RATIO` across and `-cos_lookup(angle) * length / TRIG_MAX_RATIO` down from the centre, truncated |
| Geometry.HandEndWithin | src/main.c:148-163 | with lookups bounded by `TRIG_MAX_RATIO`, a hand's end lies within its length of the centre on each axis |
| Geometry.HandEndAtInnerMargin | src/main.c:152-155 | an end at `HAND_MARGIN_INNER` (0) is the centre, whatever the lookups return |
| Drawing.MinuteHand | src/main.c:148-155 | computes the minute hand's inner and outer end points |
| Drawing.HourHand | src/main.c:156-163 | computes the hour hand's inner and outer end points |
| Drawing.Stroke | src/main.c:168-171 | the three calls that draw one hand: stroke colour, stroke width `HAND_WIDTH`, line |
| Drawing.Render | src/main.c:128-195 | the calls `update_proc` makes, in order: background fill and antialiasing; under the outer gate the hour shadow, minute shadow, hour hand and minute hand, each behind its own gate; the peg |
| Drawing.PaintAppend | src/main.c:128-195 | drawing two runs of calls leaves the marks of the first, then those of the second from the pen the first left |
| Drawing.StrokePaints | src/main.c:168-171 | setting stroke colour and width then drawing a line leaves one line in that colour and `HAND_WIDTH` |
| Drawing.GatedStrokePaints | src/main.c:181-190 | a gated hand leaves its antialiased line when shown, nothing otherwise |
| Drawing.BackgroundPaints | src/main.c:130-133 | the first three calls fill the bounds with the background colour and leave antialiasing on |
| Drawing.PegPaints | src/main.c:192-193 | the last two calls draw a disc of radius `HAND_WIDTH/4` at the centre in the peg colour |
| Drawing.HandsPaint | src/main.c:166-191 | the four gated strokes leave, in order: hour shadow, minute shadow, hour hand, minute hand |
| Drawing.RenderGated | src/main.c:128-195 | the call sequence is the background, the four gated hand strokes (shadows shifted down by 2 and 3), then the peg |
| Drawing.RenderPaintsPicture | src/main.c:128-195 | from any starting pen, the calls paint exactly the picture: background, shadows, hands, peg last |
| Drawing.AsWrittenFrames | src/main.c:128-195 | as written: up to radius 13 only background and peg; up to 17 also the minute shadow and hand; beyond that all four lines in draw order |
| Drawing.HandsStartAtCenter | src/main.c:152-163 | both hands start at the centre, because the inner margin is 0 |
| WatchFace.Stored | src/main.c:203-208 | a colour from a dictionary: `GColorFromHEX` of the value under the key, or the given fallback when the key is absent |
| WatchFace.LoadedPalette | src/main.c:203-227 | the palette `window_load` sets: each colour stored or default, the shadow looked up from the background |
| WatchFace.ApplyMessage | src/main.c:63-83 | the palette after a message: each colour whose key is present, the shadow looked up only when the background key is present |
| WatchFace.Written | src/main.c:63-65 | `persist_write_int(key, value)` when the message carries the key |
| WatchFace.Persist | src/main.c:63-83 | the store after the four conditional writes, in key order |
| WatchFace.PersistWrites | src/main.c:63-83 | the store gains exactly the colour keys the message carries, with the message's values; other keys are untouched |
| WatchFace.MessageChangesItsKeys | src/main.c:63-83 | a colour changes exactly when its key is present, to `GColorFromHEX` of the value; the shadow is recomputed only with the background |
| WatchFace.ApplyIdempotent | src/main.c:57-87 | applying the same message twice gives the same colours as applying it once |
| WatchFace.PersistIdempotent | src/main.c:63-83 | storing the same message twice leaves the same store as storing it once |
| WatchFace.ShadowOnlyFromBackground | src/main.c:63-83 | a message without the background key leaves background and shadow as they were |
| WatchFace.ApplyKeepsShadowConsistent | src/main.c:63-68 | if the shadow matched the background before a message, it does after |
| WatchFace.PersistThenLoad | src/main.c:203-227 | loading the store a message wrote gives the colours the message set live |
| WatchFace.PersistedColor | src/main.c:63-83 | after a message is stored, each colour key holds the message's value if it carried one and its old value otherwise |
| WatchFace.LoadedShadowConsistent | src/main.c:203-209 | a loaded palette's shadow is the lookup of its background |
| WatchFace.DefaultPalette | src/main.c:203-227 | with nothing stored: black background, white minute, red hour, dark gray peg, and a black shadow |
| WatchFace.Face.constructor | src/main.c:46-55 | the statics start at zero, with no layer and no redraw requested |
| WatchFace.Face.TickHandler | src/main.c:116-126 | keeps the folded hour and the minute unchanged; requests one redraw if the layer exists; nothing else changes |
| WatchFace.Face.DeriveShadow | src/main.c:209 | both handlers set the shadow with this one lookup, and it changes nothing else |
| WatchFace.Face.WindowLoad | src/main.c:197-232 | centres the face; each colour is stored or default; the shadow is derived; the layer exists after |
| WatchFace.Face.InboxReceived | src/main.c:57-87 | store and colours become the message update of the old ones; shadow consistency is kept; exactly one redraw if the layer exists |
| WatchFace.Face.RadiusUpdate | src/main.c:244-247 | the radius becomes `anim_percentage(dist, 88)`, within 0..88 for progress in range; one redraw |
| WatchFace.Face.UpdateProc | src/main.c:128-195 | the calls, made by shifting the hand points down for the shadows and back, are `Render(AsWritten, ...)` of the current state, with the macro expanded as the code reads; from any pen they paint `Picture` |
| QueryParam.Or | config/js/main.js:62 | computes JavaScript's `a or b` operator: `a` when `a` is truthy, `b` otherwise |
| QueryParam.OrMeaning | config/js/main.js:62 | the result is one of the operands, and it is truthy exactly when either operand is |
| QueryParam.DropFirst | config/js/main.js:54 | `substring(1)` removes exactly the first character, and gives "" for "" |
| QueryParam.Split | config/js/main.js:55 | `split` on one character gives at least one piece, and no piece holds the separator |
| QueryParam.JoinSplit | config/js/main.js:55 | joining the pieces with the separator gives the string back |
| QueryParam.SplitPlain | config/js/main.js:57 | a string without the separator splits into itself |
| QueryParam.SplitFirst | config/js/main.js:57 | a leading separator-free piece followed by the separator splits off as the first piece |
| QueryParam.SplitJoin | config/js/main.js:55 | separator-free pieces joined and split again give the same pieces |
| QueryParam.Key | config/js/main.js:57-58 | `pair[0]`: the piece's text before the first `=` |
| QueryParam.RawValue | config/js/main.js:57-59 | `pair[1]`: the text between the first and second `=`, or `undefined` when there is no `=` |
| QueryParam.ToJsString | config/js/main.js:59 | the string `decodeURIComponent` converts its argument to, "undefined" for `undefined` |
| QueryParam.Spec | config/js/main.js:53-63 | the result: the decoded value of the first piece whose key matches, the `URIError` when decoding throws, or else the default when truthy and `false` otherwise |
| QueryParam.FirstMatch | config/js/main.js:56-60 | the index found has a matching key and no earlier piece matches; no index means no piece matches |
| QueryParam.GetQueryParam | config/js/main.js:53-63 | the loop returns exactly what `Spec` says: the decoded value of the first match, or else the default when truthy and `false` otherwise |
| QueryParam.LeadingCharIgnored | config/js/main.js:54 | the first character of the search string never affects the result |
| QueryParam.MissingGivesDefault | config/js/main.js:62 | with no matching key the result is `defaultValue` if truthy, else `false` |
| QueryParam.FirstOccurrenceWins | config/js/main.js:56-60 | pieces after the first match cannot change which piece is chosen |
| QueryParam.MatchGivesSecondSegment | config/js/main.js:57-59 | for `key=value=...`, the key is the text before the first `=` and the value the text up to the second |
| QueryParam.KeyWithoutValue | config/js/main.js:57-59 | a matching piece with no `=` passes `undefined`, so the text "undefined" is decoded |

## Left out

- Pebble SDK calls are not modelled:
  - window and layer lifecycle, `app_message_*`, the tick timer, animation scheduling and its ease-in-out curve;
  - `srand`, `time`, `localtime`, and `init`, `deinit`, `main`, `window_unload`.
  
  The persistent store is the `Face.store` map. `layer_mark_dirty` is the `redraws` counter.
  The window's centre is a parameter of `WindowLoad`. The graphics calls are `Cmd` values.
- `GColorFromHEX` is an abstract parameter, `fromHex`.
- The values of `sin_lookup` and `cos_lookup` are abstract functions, and only their bound is assumed.
- Floating point is not modelled. `anim_percentage`, the hour creep and `0.3 * s_radius` are
  computed exactly and then truncated toward zero. The model does not claim bit-exact float
  rounding.
- The `(int16_t)` casts of end-point coordinates are not modelled. The coordinates stay well
  within range for a screen-sized radius.
- The `s_animating` / `anim_offset` branch (src/main.c:142-145) is left out. The animation is
  started without handlers, so `s_animating` never becomes true.
- The DOM, jQuery and `localStorage` code of config/js/main.js (`loadOptions`,
  `getAndStoreConfigData`, `submitHandler`) is not part of this model. Neither is
  src/js/pebble-js-app.js.
- `decodeURIComponent` is an abstract parameter `decode`, where `None` stands for the `URIError` it throws.
- JavaScript values other than strings, booleans, `undefined` and `null` are not modelled.
- WatchFace.Face.InboxReceived and WatchFace.Face.WindowLoad use `Stored` / `Written` for each
  key's `if (tuple) {...}` / `persist_exists` branch. They assign the four colours in one
  statement, after the four store writes, where the code interleaves them. The resulting
  state is the same, because each statement writes a different static.

## Findings

| source | as written | input that shows it | evidently intended | confidence | as-written member | corrected member |
|---|---|---|---|---|---|---|
| src/main.c:14 | `#define HAND_MARGIN_OUTER 10-(HAND_WIDTH/2)` has no outer parentheses. `s_radius - HAND_MARGIN_OUTER` therefore cuts 13, `2 * HAND_MARGIN_OUTER` is 17, and `s_radius > HAND_MARGIN_OUTER` tests against 7. | `s_radius` = 18 (or 19), while the radius animates: the hour hand passes both gates, but its length `(int32_t)(18 - 13 - 5.4)` is 0 | a margin of 7 at every use, so hands are drawn with positive length only, as the comment at line 164 says | not executed | Geometry.AsWrittenHourHandVanishes | Geometry.IntendedHandsHaveLength |
