# better-button-card in Dafny

A model of the logic of `better-button-card.js`, a dashboard button card for a
home-automation front end, with proofs about it. The card shows an entity's
state as a coloured button and acts when the button is clicked. The model
covers these parts:

- the `HELPERS` object:
  - `getColorForState` picks the colour for a state from `colors_by_state`, with `"auto"` taking the entity's `rgb_color`;
  - `getFontColorBasedOnBackgroundColor` picks a dark or light font by perceptive luminance, reading the background either as `rgb(r,g,b)` or through `hexToRgb`;
  - `hexToRgb` splits the number `parseInt(hex, 16)` into three bytes with shifts and masks;
  - `buildIcon` chooses the icon;
- the defaulting part of `setConfig`: top-level defaults, the seeded `colors_by_state` table, and the `card_style` text that a loop appends one declaration at a time;
- the decision `handleClick` makes: nothing, a more-info event, a configured service call, or a toggle.

Modules:

- `Wrappers`: `Option`, used for JavaScript's `undefined`, for absent keys and for NaN.
- `JsText`: the JavaScript behaviour the helpers rely on. That is the `\s` and `\d` character classes, `Number.prototype.toString` on integers below 10^21, `Array.prototype.join`, and `parseInt(s, 16)` with its white-space, sign, `0x` and longest-prefix rules.
- `CardTypes`: the entity state, the configuration the user writes, and the configuration the card stores.
- `Helpers`: the `HELPERS` object, with the regular expression `/^rgb\s*\(\s*(\d+)\s*,\s*(\d+)\s*,\s*(\d+)\s*\)$/i` written as a deterministic scanner (digits are never white space, so the greedy reading is the only one).
- `ButtonCard`:
  - the class `BetterButtonCard`, whose field `config` is `this._config`, and its `SetConfig` method with the `forEach` loop as a `while` loop;
  - the specification function `Configured`;
  - `Click`, a pure function returning a `ClickAction`.

Arithmetic is exact. JavaScript numbers are integers here, and NaN is `None`. The luminance test `(0.299 r + 0.587 g + 0.114 b) / 255 > 0.5` is the integer comparison `299 r + 587 g + 114 b > 127500`, and a NaN operand makes it false. The shifts of `hexToRgb` go through ToInt32 first, as JavaScript does.

Some of the file's own intentions are not what its code does, and the model follows the code:

- `getFontColorBasedOnBackgroundColor` starts `fontColor` at `''` (line 35), the value that leaves the font alone, and only replaces it when the parsed array is truthy. `hexToRgb` always returns an array, so the `''` result is never produced and the font is always one of the two fixed colours.
- The hex path (line 34) drops the first character, whatever it is, and parses the rest with `parseInt(…, 16)`. It does not check for a `#` or for six hex digits.
- `"auto"` (line 20) accepts any truthy `rgb_color`, not only an array of three numbers.
- No colour is resolved through CSS custom properties in this file: a `var(--…)` colour is passed through as text.

## Model

| member | source | states |
|---|---|---|
| Helpers.ColorForState | better-button-card.js:13-30 | absent state, missing key or empty entry give `fallback_color`; an entry other than `"auto"` is returned unchanged; `"auto"` gives `rgb(` + joined `rgb_color` + `)` when the entity reports one and the fallback otherwise; so the result is the fallback, a table value, or an `rgb(…)` text |
| Helpers.RgbText | better-button-card.js:22 | the template `` `rgb(${rgb_color.join(',')})` ``: the text starts with `rgb(` and ends with `)`, and is `rgb()` for an empty array; on three numbers it is `rgb(r,g,b)` in decimal (`Helpers.JoinTriple`) and is matched by the pattern (`Helpers.MatchRgbText`) |
| Helpers.BuildIcon | better-button-card.js:57-67 | the configured icon, except that `"attribute"` with a state gives the state's own `icon` attribute |
| Helpers.ToInt32 | better-button-card.js:50-52 | the 32-bit signed value the shifts work on: it lies in [-2^31, 2^31) and is congruent to the number modulo 2^32; NaN becomes 0; values already in the 32-bit signed range are kept |
| Helpers.HexToRgb | better-button-card.js:48-55 | three components, each in 0..255; NaN gives `[0, 0, 0]`; for 0 <= n < 2^24, `r*65536 + g*256 + b == n` |
| Helpers.ByteSplit | better-button-card.js:50-54 | the three bytes `(x >> 16) & 255`, `(x >> 8) & 255` and `x & 255` of a 24-bit number put back together give that number |
| Helpers.HexToRgbOfBytes | better-button-card.js:48-55 | `hexToRgb` inverts packing three bytes: it returns exactly `[r, g, b]` for `r*65536 + g*256 + b` |
| JsText.ParseIntHex | better-button-card.js:49 | `parseInt(s, 16)` is NaN on the empty text and on text starting with anything other than white space, a sign or a hex digit |
| JsText.ParseIntHexOfDigits | better-button-card.js:49 | on a non-empty string of hex digits, `parseInt(s, 16)` is the number those digits denote |
| JsText.NatToString | better-button-card.js:22 | the decimal text of a number: non-empty digits, no leading zero, denoting the number |
| JsText.IntToString | better-button-card.js:22 | `toString` of an element `join` writes: non-empty; a non-negative number gives its decimal digits, a negative one a text starting with `-` |
| JsText.Join | better-button-card.js:22 | `join` of an empty array is the empty text |
| Helpers.JoinTriple | better-button-card.js:22 | `[r, g, b].join(',')` is the three decimal texts separated by commas |
| Helpers.Component | better-button-card.js:33 | one `\s*(\d+)\s*` plus its separator read from an index: a result has white space from the index to the digits, a non-empty run of decimal digits, white space after them, and then the separator |
| Helpers.MatchRgb | better-button-card.js:33 | a match starts with `rgb` in either case and captures three non-empty runs of decimal digits (the full layout of a match is `Helpers.MatchRgbOnly`) |
| Helpers.RgbArguments | better-button-card.js:33 | the part after `(` yields three non-empty digit captures or no match (the full layout is `Helpers.RgbArgumentsOnly`) |
| Helpers.ComponentAt | better-button-card.js:33 | white space, digits, white space and the separator at given indices are read exactly there |
| Helpers.RgbArgumentsAt | better-button-card.js:33 | three laid-out components ending the text are captured as exactly those three digit runs |
| Helpers.LastComponents | better-button-card.js:33 | the green and blue components laid out at given indices are read exactly there, the blue one ending at the `)` |
| Helpers.MatchRgbAccepts | better-button-card.js:33 | every text the pattern describes, with any white space where `\s*` stands, is matched and its digit runs are the captures |
| Helpers.MatchRgbOnly | better-button-card.js:33 | the converse: every match has the pattern's layout, namely `rgb` in either case, white space, `(`, then three white-space-padded digit runs separated by `,` with the last closed by the `)` that ends the text; the captures are exactly those digit runs |
| Helpers.RgbArgumentsOnly | better-button-card.js:33 | the part after `(` is read only when it is three white-space-padded digit runs, separated by `,` and closed by the `)` that ends the text; the captures are those digit runs |
| Helpers.MatchRgbDigits | better-button-card.js:33 | `rgb(` + digits + `,` + digits + `,` + digits + `)` is matched with those three captures |
| Helpers.RgbLayout | better-button-card.js:22-33 | in `rgb(` + digits + `,` + digits + `,` + digits + `)` the separators sit right after each digit run and the runs are exactly the digit texts |
| Helpers.MatchRgbText | better-button-card.js:22-33 | the text `getColorForState` builds from an `rgb_color` of three numbers is matched by the pattern, capturing their decimal texts |
| Helpers.ScaledLuminance | better-button-card.js:38 | the scaled luminance is a number exactly when all three components are numbers |
| Helpers.DropFirst | better-button-card.js:34 | `substring(1)` is everything after the first character, and empty for the empty text |
| Helpers.MatchArray | better-button-card.js:33-34 | the match array has four elements: NaN for the whole match (it starts with `rgb`) and a number for each capture |
| Helpers.ParsedBackground | better-button-card.js:33-34 | a match gives four elements with NaN first; otherwise `hexToRgb` gives three numbers |
| Helpers.At | better-button-card.js:38 | reading past the end of an array gives NaN |
| Helpers.Bright | better-button-card.js:39 | `luminance > 0.5` on the scaled luminance: true only for a number above the threshold, never for NaN |
| Helpers.FontColor | better-button-card.js:32-46 | always one of the two fixed fonts, never `''`; on an `rgb(…)` match it is dark exactly when the luminance of the captures exceeds one half; on every other input it is the light font |
| Helpers.FontColorOfRgbText | better-button-card.js:33-43 | for the background `rgb(r,g,b)` the font is dark if and only if `299r + 587g + 114b > 127500` |
| Helpers.AutoColorFont | better-button-card.js:20-46 | an `"auto"` state whose entity reports `[r, g, b]` gets the background `rgb(r,g,b)` and the font its luminance calls for, under both the written and the corrected font rule |
| Helpers.HexBackgroundAsWritten | better-button-card.js:34-38 | as written, every background starting with `#` gets the light font, whatever follows; `#ffffff` gets the light font while `rgb(255,255,255)` gets the dark one |
| Helpers.FontColorIntended | better-button-card.js:32-46 | the corrected rule: on a match it agrees with the written one; on the hex path the font is dark exactly when the bytes of `hexToRgb` have luminance above one half |
| Helpers.IntendedFontOfHex | better-button-card.js:34-55 | under the corrected rule, `#` + six hex digits in either case gets the font the luminance of their three bytes calls for |
| Helpers.HexColorBytes | better-button-card.js:48-55 | every six hex digits have three bytes, the ones `hexToRgb` reads from their value, that pack back into that value |
| JsText.HexValueBound | better-button-card.js:49 | `k` hex digits denote a number below 16^k |
| Helpers.HexAndRgbAgree | better-button-card.js:33-43 | under the corrected rule, `#` + six hex digits denoting `r`, `g`, `b` and `rgb(r,g,b)` get the same font, the one the luminance threshold picks |
| Helpers.HexTriplet | better-button-card.js:34 | six hex digits whose value is `r*65536 + g*256 + b` |
| ButtonCard.MergeColors | better-button-card.js:119-123 | the merged table has the seed keys and the caller's keys; the caller's entries win; seed keys the caller leaves alone keep their defaults |
| ButtonCard.Declaration | better-button-card.js:128-131 | one style object gives `first key: its value;`, and `undefined: undefined;` when it has no keys |
| ButtonCard.Configured | better-button-card.js:110-133 | each key the caller gives wins over its default (`size` 40%, `fallback_color` the primary text colour, `name` empty, `show_state_label` true, `color_style` background); other keys pass through; the colour table always has `off`, `on` and `unavailable`; `card_style` is the CSS text of `style`, empty without one |
| ButtonCard.BetterButtonCard.constructor | better-button-card.js:73-76 | a new card has no configuration yet |
| ButtonCard.BetterButtonCard.SetConfig | better-button-card.js:102-133 | after the call the stored configuration is `Configured(user)`, the `card_style` loop having appended one declaration per style object |
| ButtonCard.Declarations | better-button-card.js:128-131 | one declaration per style object, in the order of the list |
| ButtonCard.Concat | better-button-card.js:125-131 | the text `+=` builds from `''`: empty for no parts, and otherwise ending with the part appended last (its meaning over whole lists is `ButtonCard.ConcatAppend`) |
| ButtonCard.CardStyle | better-button-card.js:125-133 | the `card_style` text of a style list: with at least one object it ends with the `;` of the last declaration (placement of each declaration: `ButtonCard.CardStyleAt`, `ButtonCard.CardStyleAppend`, `ButtonCard.CardStyleEmpty`) |
| ButtonCard.ConcatAppend | better-button-card.js:125-133 | appending texts with `+=` over two lists in turn gives the first list's text followed by the second's |
| ButtonCard.CardStyleSnoc | better-button-card.js:128-131 | one more style object appends exactly its declaration to `card_style`: the step of the `forEach` |
| ButtonCard.CardStylePrefix | better-button-card.js:125-133 | after `i + 1` iterations `card_style` is the text after `i` iterations followed by the declaration of object `i` |
| ButtonCard.CardStyleAppend | better-button-card.js:125-133 | the CSS text of two style lists one after the other is their two CSS texts one after the other |
| ButtonCard.CardStyleAt | better-button-card.js:125-133 | each style object contributes its own declaration at its own place: the text before it, its declaration, the text after it |
| ButtonCard.CardStyleEmpty | better-button-card.js:125-133 | `card_style` is empty exactly when there is no style object |
| ButtonCard.DeclarationNotEmpty | better-button-card.js:128-131 | every declaration ends with `;`, so no style object contributes an empty text |
| ButtonCard.Toggle | better-button-card.js:276-280 | the toggle is the service `homeassistant.toggle` with data holding only `entity_id` |
| ButtonCard.Click | better-button-card.js:251-283 | no entity gives no action, in both directions; `more_info` gives the more-info event for the entity, in both directions; `service` gives the configured call, or the TypeError when no service is configured; every other action, including none, toggles the entity |
| CardTypes.Truthy | better-button-card.js:252 | JavaScript truthiness of a string property, as in `if (this._config.entity)` and `if (stateColor)`: true only for a present, non-empty text |
| ButtonCard.DefaultClickToggles | better-button-card.js:251-283 | a card configured with an entity and no action toggles that entity |
| ButtonCard.DefaultStateColors | better-button-card.js:110-123 | with no caller table and no fallback: `off` shows the disabled text colour, `unavailable` yellow, `on` the entity's reported colour or the primary text colour, any other state and no state the primary text colour |
| ButtonCard.CallerColorWins | better-button-card.js:13-30 | a caller's entry for a state is what that state shows unless it is empty or `"auto"`; an empty caller entry falls back instead of showing the seed colour |

## Findings

| source | as written | input that shows it | evidently intended | confidence | as-written member | corrected member |
|---|---|---|---|---|---|---|
| better-button-card.js:38 | the luminance reads elements 1, 2 and 3 of the parsed array on both paths; the `hexToRgb` array has three elements, so element 3 is `undefined`, the luminance is NaN and every hex background gets the light font | `#ffffff` (white) gets `rgb(234, 234, 234)` while `rgb(255,255,255)` gets `rgb(62, 62, 62)` | the hex path reads elements 0, 1 and 2, so `#rrggbb` and `rgb(r,g,b)` get the same font | high; not executed | Helpers.HexBackgroundAsWritten | Helpers.HexAndRgbAgree |

`Helpers.FontColor` is the rule as written, and `Helpers.FontColorIntended` is the corrected rule. They agree on every `rgb(…)` background, which includes every colour an `"auto"` state produces (`Helpers.AutoColorFont`).

## Left out

- Rendering and the DOM are not modelled. That covers the shadow root, element creation, `cssText` assembly in `render`, removing the old children, and `customElements.define`. They produce markup, not decisions.
- The `hass` setter is not modelled. The entity state is a parameter of the helpers instead.
- The effects of `callService` and `dispatchEvent` are not modelled. `Click` returns the action that would be performed.
- `getCardSize` is not modelled, because it returns the constant 3.
- Helpers.FontColor: the luminance is compared exactly, as integers. Floating-point rounding at the exact boundary `299r + 587g + 114b == 127500` is not captured.
- Helpers.FontColorIntended: same exact comparison as `FontColor`.
- JsText.ParseIntHex: the number is exact. Loss of precision above 2^53 (more than 13 hex digits) and `Infinity` for very long inputs are not modelled. Text is a sequence of Unicode scalar values, not of UTF-16 code units, so `substring(1)` on a surrogate pair differs.
- Helpers.ColorForState:
  - `rgb_color` elements are integers. Fractions, strings and other element types are not modelled.
  - A state name that is an `Object.prototype` key, such as `constructor`, would find an inherited value in JavaScript; that lookup is not modelled.
  - `colors_by_state` values are strings.
  - `rgb_color` numbers of 10^21 or more are written in decimal here. JavaScript writes them in exponent form (`1e+21`), which the `rgb(…)` pattern then rejects, so such a colour would get the light font.
- ButtonCard.Configured:
  - A key the caller sets explicitly to `undefined` counts as absent here. `Object.assign` would copy the `undefined` over the default.
  - Keys the card does not read are dropped.
  - `setConfig(undefined)`, which throws, is not modelled.
- ButtonCard.Declaration: a style object's keys are taken in the order given. JavaScript lists integer-like keys first, and that reordering is not modelled. Values are strings. The keys of a style object are taken to be distinct, as in any JavaScript object; a literal that repeats a key, which JavaScript collapses to one key at its first position holding its last value, is not collapsed here.
- ButtonCard.Click:
  - A click before `setConfig`, when `this._config` is undefined and `handleClick` throws, is not modelled.
  - A click after `setConfig` but before the `hass` setter, when `this._hass` is undefined and the service call or toggle throws a TypeError (lines 269 and 278), is not modelled: `Click` returns the call.
  - A `service` object missing `domain`, `action` or `data` is not modelled; the call would pass `undefined` for the missing field.
