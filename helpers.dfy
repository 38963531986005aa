/** The card's `HELPERS` object: the colour for an entity's state, the font
    colour that stays readable on a background, the split of a hex colour
    into its red, green and blue bytes, and the icon choice. All of them are
    pure. */
module Helpers {
  import opened Wrappers
  import opened JsText
  import opened CardTypes

  /** Font colour for bright backgrounds (a dark grey). */
  const DarkFont := "rgb(62, 62, 62)"
  /** Font colour for dark backgrounds (a light grey). */
  const LightFont := "rgb(234, 234, 234)"

  /** `rgb(${rgb.join(',')})`: the CSS colour built from an `rgb_color` attribute. */
  function RgbText(rgb: seq<int>): (t: string)
    ensures rgb == [] ==> t == "rgb()"
    ensures |t| >= 5 && t[0] == 'r' && t[1] == 'g' && t[2] == 'b' && t[3] == '(' && t[|t| - 1] == ')'
  {
    "rgb(" + Join(rgb, ",") + ")"
  }

  /** `getColorForState`: the colour configured for the entity's current
      state. `"auto"` takes the colour the entity reports; a missing state,
      a missing or empty entry, or `"auto"` without a reported colour all
      give `fallbackColor`. */
  function ColorForState(state: Option<EntityState>, config: CardConfig): (color: string)
    ensures state.None? ==> color == config.fallbackColor
    ensures state.Some? && state.value.state !in config.colorsByState ==> color == config.fallbackColor
    ensures state.Some? && state.value.state in config.colorsByState ==>
      var entry := config.colorsByState[state.value.state];
      && (entry == "" ==> color == config.fallbackColor)
      && (entry != "" && entry != "auto" ==> color == entry)
      && (entry == "auto" && state.value.attributes.rgbColor.None? ==> color == config.fallbackColor)
      && (entry == "auto" && state.value.attributes.rgbColor.Some? ==>
            color == RgbText(state.value.attributes.rgbColor.value))
    ensures || color == config.fallbackColor
            || color in config.colorsByState.Values
            || (|color| >= 5 && color[..4] == "rgb(" && color[|color| - 1] == ')')
  {
    var color := config.fallbackColor;
    if state.Some? && state.value.state in config.colorsByState && config.colorsByState[state.value.state] != "" then
      var stateColor := config.colorsByState[state.value.state];
      if stateColor == "auto" then
        match state.value.attributes.rgbColor
        case Some(rgb) => RgbText(rgb)
        case None => config.fallbackColor
      else
        stateColor
    else
      color
  }

  /** JavaScript's conversion of a number to a 32-bit signed integer, which
      the shift operators apply first; NaN becomes 0. */
  function ToInt32(n: Option<int>): (x: int)
    ensures -0x8000_0000 <= x < 0x8000_0000
    ensures n.None? ==> x == 0
    ensures n.Some? ==> (x - n.value) % 0x1_0000_0000 == 0
    ensures n.Some? && -0x8000_0000 <= n.value < 0x8000_0000 ==> x == n.value
  {
    match n
    case None => 0
    case Some(v) =>
      var m := v % 0x1_0000_0000;
      if m >= 0x8000_0000 then m - 0x1_0000_0000 else m
  }

  /** `hexToRgb` applied to the number `parseInt` produced (`None` for NaN):
      `(x >> 16) & 255`, `(x >> 8) & 255` and `x & 255`. An arithmetic
      right shift by k is floor division by 2^k, and `& 255` of a 32-bit
      two's-complement value is its non-negative remainder modulo 256. */
  function HexToRgb(n: Option<int>): (rgb: seq<int>)
    ensures |rgb| == 3
    ensures forall i :: 0 <= i < 3 ==> 0 <= rgb[i] < 256
    ensures n.None? ==> rgb == [0, 0, 0]
    ensures n.Some? && 0 <= n.value < 0x100_0000 ==> rgb[0] * 0x1_0000 + rgb[1] * 0x100 + rgb[2] == n.value
  {
    var x := ToInt32(n);
    ByteSplit(x);
    [(x / 0x1_0000) % 256, (x / 0x100) % 256, x % 256]
  }

  /** `s.substring(1)`: everything after the first character. */
  function DropFirst(s: string): (r: string)
    ensures s != [] ==> r == s[1..]
    ensures s == [] ==> r == []
  {
    if s == [] then [] else s[1..]
  }

  /** The three groups `(\d+)` captures. */
  datatype Captures = Captures(red: string, green: string, blue: string)

  /** Where one `\s*(\d+)\s*` of the pattern found its digits, and the
      index just after the character that follows it. */
  datatype Span = Span(start: nat, end: nat, next: nat)

  /** `\s*(\d+)\s*` followed by `sep`, read from index `i`. Digits are never
      white space, so the greedy reading is the only one the pattern has. */
  function Component(s: string, i: nat, sep: char): (r: Option<Span>)
    requires i <= |s|
    ensures r.Some? ==> i <= r.value.start < r.value.end < r.value.next <= |s|
    ensures r.Some? ==> DigitsIn(s, r.value.start, r.value.end)
    ensures r.Some? ==> SpacesIn(s, i, r.value.start) && SpacesIn(s, r.value.end, r.value.next - 1)
    ensures r.Some? ==> s[r.value.next - 1] == sep
  {
    var a := SkipSpaces(s, i);
    var b := SkipDigits(s, a);
    if a == b then None
    else
      var c := SkipSpaces(s, b);
      if c < |s| && s[c] == sep then Some(Span(a, b, c + 1)) else None
  }

  /** Whether `c` is `x` in either case (the `i` flag, for ASCII letters). */
  predicate SameLetter(c: char, lower: char, upper: char)
  {
    c == lower || c == upper
  }

  /** `s.match(/^rgb\s*\(\s*(\d+)\s*,\s*(\d+)\s*,\s*(\d+)\s*\)$/i)`: the
      three captured digit strings, or `None` when `s` does not match. */
  function MatchRgb(s: string): (m: Option<Captures>)
    ensures m.Some? ==>
      && m.value.red != [] && AllDigits(m.value.red)
      && m.value.green != [] && AllDigits(m.value.green)
      && m.value.blue != [] && AllDigits(m.value.blue)
      && |s| > 3 && SameLetter(s[0], 'r', 'R') && SameLetter(s[1], 'g', 'G') && SameLetter(s[2], 'b', 'B')
  {
    if |s| < 3 || !(SameLetter(s[0], 'r', 'R') && SameLetter(s[1], 'g', 'G') && SameLetter(s[2], 'b', 'B')) then None
    else
      var open := SkipSpaces(s, 3);
      if open == |s| || s[open] != '(' then None
      else RgbArguments(s, open + 1)
  }

  /** The part of the pattern after `(`, read from index `i`: three
      components separated by commas, the last closed by `)`, which must end
      the text. */
  function RgbArguments(s: string, i: nat): (m: Option<Captures>)
    requires i <= |s|
    ensures m.Some? ==>
      && m.value.red != [] && AllDigits(m.value.red)
      && m.value.green != [] && AllDigits(m.value.green)
      && m.value.blue != [] && AllDigits(m.value.blue)
  {
    match Component(s, i, ',')
    case None => None
    case Some(red) =>
      match Component(s, red.next, ',')
      case None => None
      case Some(green) =>
        match Component(s, green.next, ')')
        case None => None
        case Some(blue) =>
          if blue.next == |s| then Some(Captures(Digits(s, red), Digits(s, green), Digits(s, blue)))
          else None
  }

  /** The digits a component captured. */
  function Digits(s: string, span: Span): (d: string)
    requires span.start < span.end <= |s|
    requires DigitsIn(s, span.start, span.end)
    ensures d != [] && AllDigits(d)
  {
    DigitsInAll(s, span.start, span.end);
    s[span.start..span.end]
  }

  /** 255000 times the perceptive luminance `0.299 a + 0.587 b + 0.114 c`
      over 255; NaN (`None`) when any component is NaN. */
  function ScaledLuminance(a: Option<int>, b: Option<int>, c: Option<int>): (l: Option<int>)
    ensures l.Some? <==> a.Some? && b.Some? && c.Some?
  {
    if a.Some? && b.Some? && c.Some? then Some(299 * a.value + 587 * b.value + 114 * c.value) else None
  }

  /** `luminance > 0.5`, over exact integers; a NaN luminance is never greater. */
  predicate Bright(l: Option<int>)
    ensures Bright(l) ==> l.Some?
    ensures l.Some? && l.value > 127500 ==> Bright(l)
  {
    l.Some? && l.value > 127500
  }

  /** The array `match` returns, as numbers: the whole matched text, which
      starts with `rgb` and so is NaN, then the three captures. */
  function MatchArray(c: Captures): (a: seq<Option<int>>)
    requires AllDigits(c.red) && AllDigits(c.green) && AllDigits(c.blue)
    ensures |a| == 4 && a[0].None? && a[1].Some? && a[2].Some? && a[3].Some?
  {
    [None, Some(DecimalValue(c.red)), Some(DecimalValue(c.green)), Some(DecimalValue(c.blue))]
  }

  /** The array `parsedBackgroundColor`, each element the number it becomes
      in arithmetic (`None` for NaN). A match gives the whole matched text
      (NaN, since it starts with `rgb`) followed by the three captures;
      otherwise `hexToRgb` gives its three bytes. */
  function ParsedBackground(backgroundColor: string): (a: seq<Option<int>>)
    ensures MatchRgb(backgroundColor).Some? ==> |a| == 4 && a[0].None? && a[1].Some? && a[2].Some? && a[3].Some?
    ensures MatchRgb(backgroundColor).None? ==> |a| == 3 && a[0].Some? && a[1].Some? && a[2].Some?
  {
    var m := MatchRgb(backgroundColor);
    if m.Some? then MatchArray(m.value)
    else
      var rgb := HexToRgb(ParseIntHex(DropFirst(backgroundColor)));
      [Some(rgb[0]), Some(rgb[1]), Some(rgb[2])]
  }

  /** `a[i]` for a JavaScript array: `undefined`, hence NaN, past the end. */
  function At(a: seq<Option<int>>, i: nat): (x: Option<int>)
    ensures i >= |a| ==> x.None?
    ensures i < |a| ==> x == a[i]
  {
    if i < |a| then a[i] else None
  }

  /** `getFontColorBasedOnBackgroundColor` as written: the luminance always
      reads elements 1, 2 and 3 of the parsed array. For the three-element
      array `hexToRgb` returns, element 3 is `undefined`, so every background
      that is not an `rgb(...)` text gets the light font. The array is never
      falsy, so the `''` ("do not override") result is never produced. */
  function FontColor(backgroundColor: string): (font: string)
    ensures font == DarkFont || font == LightFont
    ensures font != ""
    ensures MatchRgb(backgroundColor).None? ==> font == LightFont
    ensures MatchRgb(backgroundColor).Some? ==>
      var c := MatchRgb(backgroundColor).value;
      (font == DarkFont <==>
         299 * DecimalValue(c.red) + 587 * DecimalValue(c.green) + 114 * DecimalValue(c.blue) > 127500)
  {
    var parsed := ParsedBackground(backgroundColor);
    if Bright(ScaledLuminance(At(parsed, 1), At(parsed, 2), At(parsed, 3))) then DarkFont else LightFont
  }

  /** The font colour with the hex path reading the bytes `hexToRgb`
      returns (elements 0, 1 and 2), as the `rgb(...)` path reads its
      captures. */
  function FontColorIntended(backgroundColor: string): (font: string)
    ensures font == DarkFont || font == LightFont
    ensures MatchRgb(backgroundColor).Some? ==>
      var c := MatchRgb(backgroundColor).value;
      (font == DarkFont <==>
         299 * DecimalValue(c.red) + 587 * DecimalValue(c.green) + 114 * DecimalValue(c.blue) > 127500)
    ensures MatchRgb(backgroundColor).None? ==>
      var rgb := HexToRgb(ParseIntHex(DropFirst(backgroundColor)));
      (font == DarkFont <==> 299 * rgb[0] + 587 * rgb[1] + 114 * rgb[2] > 127500)
  {
    var parsed := ParsedBackground(backgroundColor);
    var first := if MatchRgb(backgroundColor).Some? then 1 else 0;
    if Bright(ScaledLuminance(At(parsed, first), At(parsed, first + 1), At(parsed, first + 2))) then DarkFont
    else LightFont
  }

  /** `buildIcon`: the configured icon, except that the icon `"attribute"`
      takes the entity's own `icon` attribute when there is a state. */
  function BuildIcon(state: Option<EntityState>, config: CardConfig): (icon: Option<string>)
    ensures config.icon != Some("attribute") ==> icon == config.icon
    ensures config.icon == Some("attribute") && state.None? ==> icon == config.icon
    ensures config.icon == Some("attribute") && state.Some? ==> icon == state.value.attributes.icon
  {
    var iconOff := config.icon;
    if config.icon == Some("attribute") then
      if state.Some? then state.value.attributes.icon else iconOff
    else iconOff
  }

  /** `hexToRgb` inverts packing three bytes into one number. */
  lemma HexToRgbOfBytes(r: nat, g: nat, b: nat)
    requires r < 256 && g < 256 && b < 256
    ensures HexToRgb(Some(r * 0x1_0000 + g * 0x100 + b)) == [r, g, b]
  {
    var x := r * 0x1_0000 + g * 0x100 + b;
    assert ToInt32(Some(x)) == x;
    DivMod(x, 0x1_0000, r, g * 0x100 + b);
    DivMod(x, 0x100, r * 0x100 + g, b);
    DivMod(r * 0x100 + g, 0x100, r, g);
  }

  /** The three bytes `hexToRgb` extracts from a 24-bit number put it back
      together. */
  lemma ByteSplit(x: int)
    ensures 0 <= x < 0x100_0000 ==> ((x / 0x1_0000) % 256) * 0x1_0000 + ((x / 0x100) % 256) * 0x100 + x % 256 == x
  {
    if 0 <= x < 0x100_0000 {
      var r, m := x / 0x1_0000, x % 0x1_0000;
      var g, b := m / 0x100, m % 0x100;
      assert x == r * 0x1_0000 + g * 0x100 + b;
      DivMod(r, 256, 0, r);
      DivMod(x, 0x100, r * 0x100 + g, b);
      DivMod(r * 0x100 + g, 0x100, r, g);
    }
  }

  lemma DivMod(x: int, d: int, q: int, m: int)
    requires d > 0 && 0 <= m < d && x == q * d + m
    ensures x / d == q && x % d == m
  {
    var q', m' := x / d, x % d;
    assert q' * d + m' == x;
    assert (q - q') * d == m' - m;
    if q > q' {
      MulAtLeast(q - q', d);
    } else if q < q' {
      MulAtLeast(q' - q, d);
    }
  }

  lemma MulAtLeast(k: int, d: int)
    requires k >= 1 && d > 0
    ensures k * d >= d
  {
  }

  /** `[r, g, b].join(',')`. */
  lemma JoinTriple(r: nat, g: nat, b: nat)
    ensures Join([r, g, b], ",") == NatToString(r) + "," + NatToString(g) + "," + NatToString(b)
  {
    var rs, gs, bs := NatToString(r), NatToString(g), NatToString(b);
    assert Join([r, g], ",") == rs + "," + gs by {
      assert [r, g][..1] == [r];
    }
    assert Join([r, g, b], ",") == Join([r, g], ",") + "," + bs by {
      assert [r, g, b][..2] == [r, g];
    }
  }

  /** A component whose white space, digits and separator sit at the
      given indices is read exactly there. */
  lemma ComponentAt(s: string, i: nat, a: nat, b: nat, c: nat, sep: char)
    requires i <= a < b <= c < |s|
    requires SpacesIn(s, i, a) && DigitsIn(s, a, b) && SpacesIn(s, b, c)
    requires s[c] == sep && Printable(sep) && !IsDigit(sep)
    ensures Component(s, i, sep) == Some(Span(a, b, c + 1))
  {
    PrintableNotSpace(s[a]);
    PrintableNotSpace(s[b]);
    PrintableNotSpace(sep);
    SkipSpacesTo(s, i, a);
    SkipDigitsTo(s, a, b);
    SkipSpacesTo(s, b, c);
  }

  /** Every text the pattern describes is matched, with its three digit
      runs captured: `rgb` in any case, then white space, `(`, white space,
      digits, white space, `,`, and so on up to the closing `)` at the very
      end, where each stretch of white space may be empty. */
  lemma MatchRgbAccepts(s: string, open: nat, a1: nat, b1: nat, c1: nat, a2: nat, b2: nat, c2: nat,
                        a3: nat, b3: nat, c3: nat)
    requires 3 <= open < a1 < b1 <= c1 < a2 < b2 <= c2 < a3 < b3 <= c3 && c3 + 1 == |s|
    requires SameLetter(s[0], 'r', 'R') && SameLetter(s[1], 'g', 'G') && SameLetter(s[2], 'b', 'B')
    requires SpacesIn(s, 3, open) && s[open] == '('
    requires SpacesIn(s, open + 1, a1) && DigitsIn(s, a1, b1) && SpacesIn(s, b1, c1) && s[c1] == ','
    requires SpacesIn(s, c1 + 1, a2) && DigitsIn(s, a2, b2) && SpacesIn(s, b2, c2) && s[c2] == ','
    requires SpacesIn(s, c2 + 1, a3) && DigitsIn(s, a3, b3) && SpacesIn(s, b3, c3) && s[c3] == ')'
    ensures MatchRgb(s) == Some(Captures(s[a1..b1], s[a2..b2], s[a3..b3]))
  {
    PrintableNotSpace('(');
    SkipSpacesTo(s, 3, open);
    RgbArgumentsAt(s, open + 1, a1, b1, c1, a2, b2, c2, a3, b3, c3);
  }

  /** Only texts the pattern describes are matched: a match returns the
      positions of the `(` and of the three components, and these lay the
      text out as `MatchRgbAccepts` requires, with the captures being
      exactly the three digit runs. */
  lemma MatchRgbOnly(s: string) returns (open: nat, red: Span, green: Span, blue: Span)
    requires MatchRgb(s).Some?
    ensures 3 <= open < red.start < red.end < red.next <= green.start < green.end < green.next
            <= blue.start < blue.end < blue.next == |s|
    ensures SameLetter(s[0], 'r', 'R') && SameLetter(s[1], 'g', 'G') && SameLetter(s[2], 'b', 'B')
    ensures SpacesIn(s, 3, open) && s[open] == '('
    ensures SpacesIn(s, open + 1, red.start) && DigitsIn(s, red.start, red.end)
    ensures SpacesIn(s, red.end, red.next - 1) && s[red.next - 1] == ','
    ensures SpacesIn(s, red.next, green.start) && DigitsIn(s, green.start, green.end)
    ensures SpacesIn(s, green.end, green.next - 1) && s[green.next - 1] == ','
    ensures SpacesIn(s, green.next, blue.start) && DigitsIn(s, blue.start, blue.end)
    ensures SpacesIn(s, blue.end, blue.next - 1) && s[blue.next - 1] == ')'
    ensures MatchRgb(s) == Some(Captures(s[red.start..red.end], s[green.start..green.end], s[blue.start..blue.end]))
  {
    open := SkipSpaces(s, 3);
    red, green, blue := RgbArgumentsOnly(s, open + 1);
  }

  /** Only three laid-out components ending the text are read after `(`,
      and their digit runs are the captures. */
  lemma RgbArgumentsOnly(s: string, i: nat) returns (red: Span, green: Span, blue: Span)
    requires i <= |s| && RgbArguments(s, i).Some?
    ensures i <= red.start < red.end < red.next <= green.start < green.end < green.next
            <= blue.start < blue.end < blue.next == |s|
    ensures SpacesIn(s, i, red.start) && DigitsIn(s, red.start, red.end)
    ensures SpacesIn(s, red.end, red.next - 1) && s[red.next - 1] == ','
    ensures SpacesIn(s, red.next, green.start) && DigitsIn(s, green.start, green.end)
    ensures SpacesIn(s, green.end, green.next - 1) && s[green.next - 1] == ','
    ensures SpacesIn(s, green.next, blue.start) && DigitsIn(s, blue.start, blue.end)
    ensures SpacesIn(s, blue.end, blue.next - 1) && s[blue.next - 1] == ')'
    ensures RgbArguments(s, i) == Some(Captures(s[red.start..red.end], s[green.start..green.end], s[blue.start..blue.end]))
  {
    red := Component(s, i, ',').value;
    green := Component(s, red.next, ',').value;
    blue := Component(s, green.next, ')').value;
  }

  /** The three components, read from index `i` up to the end of the text. */
  lemma RgbArgumentsAt(s: string, i: nat, a1: nat, b1: nat, c1: nat, a2: nat, b2: nat, c2: nat,
                       a3: nat, b3: nat, c3: nat)
    requires i <= a1 < b1 <= c1 < a2 < b2 <= c2 < a3 < b3 <= c3 && c3 + 1 == |s|
    requires SpacesIn(s, i, a1) && DigitsIn(s, a1, b1) && SpacesIn(s, b1, c1) && s[c1] == ','
    requires SpacesIn(s, c1 + 1, a2) && DigitsIn(s, a2, b2) && SpacesIn(s, b2, c2) && s[c2] == ','
    requires SpacesIn(s, c2 + 1, a3) && DigitsIn(s, a3, b3) && SpacesIn(s, b3, c3) && s[c3] == ')'
    ensures RgbArguments(s, i) == Some(Captures(s[a1..b1], s[a2..b2], s[a3..b3]))
  {
    var red, green, blue := Span(a1, b1, c1 + 1), Span(a2, b2, c2 + 1), Span(a3, b3, c3 + 1);
    assert Component(s, i, ',') == Some(red) by {
      ComponentAt(s, i, a1, b1, c1, ',');
    }
    assert Component(s, red.next, ',') == Some(green) && Component(s, green.next, ')') == Some(blue) by {
      LastComponents(s, c1 + 1, a2, b2, c2, a3, b3, c3);
    }
    assert Digits(s, red) == s[a1..b1] && Digits(s, green) == s[a2..b2] && Digits(s, blue) == s[a3..b3];
  }

  /** The green and blue components, read from index `i`. */
  lemma LastComponents(s: string, i: nat, a2: nat, b2: nat, c2: nat, a3: nat, b3: nat, c3: nat)
    requires i <= a2 < b2 <= c2 < a3 < b3 <= c3 < |s|
    requires SpacesIn(s, i, a2) && DigitsIn(s, a2, b2) && SpacesIn(s, b2, c2) && s[c2] == ','
    requires SpacesIn(s, c2 + 1, a3) && DigitsIn(s, a3, b3) && SpacesIn(s, b3, c3) && s[c3] == ')'
    ensures Component(s, i, ',') == Some(Span(a2, b2, c2 + 1))
    ensures Component(s, c2 + 1, ')') == Some(Span(a3, b3, c3 + 1))
  {
    ComponentAt(s, i, a2, b2, c2, ',');
    ComponentAt(s, c2 + 1, a3, b3, c3, ')');
  }

  /** `rgb(` followed by three digit strings separated by commas and a
      closing `)` is matched, with the digit strings captured. */
  lemma MatchRgbDigits(rs: string, gs: string, bs: string)
    requires rs != [] && AllDigits(rs) && gs != [] && AllDigits(gs) && bs != [] && AllDigits(bs)
    ensures MatchRgb("rgb(" + (rs + ("," + (gs + ("," + (bs + ")")))))) == Some(Captures(rs, gs, bs))
  {
    var s := "rgb(" + (rs + ("," + (gs + ("," + (bs + ")")))));
    var b1 := 4 + |rs|;
    var b2 := b1 + 1 + |gs|;
    var b3 := b2 + 1 + |bs|;
    RgbLayout(rs, gs, bs);
    assert MatchRgb(s) == Some(Captures(s[4..b1], s[b1 + 1..b2], s[b2 + 1..b3])) by {
      MatchRgbAccepts(s, 3, 4, b1, b1, b1 + 1, b2, b2, b2 + 1, b3, b3);
    }
    assert Captures(s[4..b1], s[b1 + 1..b2], s[b2 + 1..b3]) == Captures(rs, gs, bs);
  }

  /** Where the parts of `rgb(rs,gs,bs)` sit. */
  lemma RgbLayout(rs: string, gs: string, bs: string)
    requires rs != [] && AllDigits(rs) && gs != [] && AllDigits(gs) && bs != [] && AllDigits(bs)
    ensures var s := "rgb(" + (rs + ("," + (gs + ("," + (bs + ")")))));
            var b1 := 4 + |rs|;
            var b2 := b1 + 1 + |gs|;
            var b3 := b2 + 1 + |bs|;
            && |s| == b3 + 1 && s[0] == 'r' && s[1] == 'g' && s[2] == 'b' && s[3] == '('
            && s[b1] == ',' && s[b2] == ',' && s[b3] == ')'
            && s[4..b1] == rs && s[b1 + 1..b2] == gs && s[b2 + 1..b3] == bs
            && DigitsIn(s, 4, b1) && DigitsIn(s, b1 + 1, b2) && DigitsIn(s, b2 + 1, b3)
  {
    var s := "rgb(" + (rs + ("," + (gs + ("," + (bs + ")")))));
    var b1 := 4 + |rs|;
    var b2 := b1 + 1 + |gs|;
    var b3 := b2 + 1 + |bs|;
    assert s[4..b1] == rs && s[b1] == ',';
    assert s[b1 + 1..b2] == gs && s[b2] == ',';
    assert s[b2 + 1..b3] == bs && s[b3] == ')';
    AllDigitsIn(s, 4, b1);
    AllDigitsIn(s, b1 + 1, b2);
    AllDigitsIn(s, b2 + 1, b3);
  }

  /** The text `getColorForState` builds from an `rgb_color` of three
      non-negative numbers is matched by the `rgb(...)` pattern, and the
      captures are those numbers' decimal texts. */
  lemma MatchRgbText(r: nat, g: nat, b: nat)
    ensures MatchRgb(RgbText([r, g, b])) == Some(Captures(NatToString(r), NatToString(g), NatToString(b)))
  {
    var rs, gs, bs := NatToString(r), NatToString(g), NatToString(b);
    assert RgbText([r, g, b]) == "rgb(" + (rs + ("," + (gs + ("," + (bs + ")"))))) by {
      JoinTriple(r, g, b);
      Regroup("rgb(", rs, ",", gs, ",", bs, ")");
    }
    MatchRgbDigits(rs, gs, bs);
  }

  lemma Regroup<T>(p: seq<T>, a: seq<T>, s1: seq<T>, b: seq<T>, s2: seq<T>, c: seq<T>, q: seq<T>)
    ensures p + (a + s1 + b + s2 + c) + q == p + (a + (s1 + (b + (s2 + (c + q)))))
  {
  }

  /** On a background given as `rgb(r,g,b)`, the font is dark exactly when
      the perceptive luminance exceeds one half. */
  lemma FontColorOfRgbText(r: nat, g: nat, b: nat)
    ensures FontColor(RgbText([r, g, b])) == if 299 * r + 587 * g + 114 * b > 127500 then DarkFont else LightFont
  {
    MatchRgbText(r, g, b);
  }

  /** What the card renders for an `"auto"` state whose entity reports a
      colour: the background is that colour and the font follows its
      luminance. */
  lemma AutoColorFont(state: Option<EntityState>, config: CardConfig, r: nat, g: nat, b: nat)
    requires state.Some? && state.value.state in config.colorsByState
    requires config.colorsByState[state.value.state] == "auto"
    requires state.value.attributes.rgbColor == Some([r, g, b])
    ensures ColorForState(state, config) == RgbText([r, g, b])
    ensures FontColor(ColorForState(state, config))
            == if 299 * r + 587 * g + 114 * b > 127500 then DarkFont else LightFont
    ensures FontColorIntended(ColorForState(state, config)) == FontColor(ColorForState(state, config))
  {
    MatchRgbText(r, g, b);
  }

  /** `"#rrggbb"` without its `#`: a byte as two lower-case hex digits. */
  function HexByte(x: nat): (s: string)
    requires x < 256
    ensures |s| == 2 && AllHexDigits(s) && HexValue(s) == x
  {
    var hi, lo := HexDigitChar(x / 16), HexDigitChar(x % 16);
    var s := [hi, lo];
    assert s[..1] == [hi] && [hi][..0] == [];
    assert HexValue([hi]) == x / 16;
    assert HexValue(s) == HexValue([hi]) * 16 + HexDigitValue(lo);
    s
  }

  /** Six hex digits for a colour's red, green and blue bytes. */
  function HexTriplet(r: nat, g: nat, b: nat): (s: string)
    requires r < 256 && g < 256 && b < 256
    ensures |s| == 6 && AllHexDigits(s)
    ensures HexValue(s) == r * 0x1_0000 + g * 0x100 + b
  {
    var rg := HexByte(r) + HexByte(g);
    HexValueAppend(HexByte(r), HexByte(g));
    HexValueAppend(rg, HexByte(b));
    assert Pow16(2) == 0x100;
    rg + HexByte(b)
  }

  /** As written, a hex background never gets the dark font: whatever
      follows the `#`, the font is the light one. White (`#ffffff`) gets the
      same light font as black, while `rgb(255,255,255)` gets the dark one. */
  lemma HexBackgroundAsWritten(h: string)
    ensures FontColor("#" + h) == LightFont
    ensures HexTriplet(255, 255, 255) == "ffffff"
    ensures FontColor("#ffffff") == LightFont && FontColor(RgbText([255, 255, 255])) == DarkFont
  {
    assert MatchRgb("#" + h).None? by {
      assert ("#" + h)[0] == '#';
    }
    assert HexTriplet(255, 255, 255) == "ffffff";
    FontColorOfRgbText(255, 255, 255);
  }

  /** Every six hex digits denote a colour: the three bytes `hexToRgb`
      reads from their value pack back into it. */
  lemma HexColorBytes(h: string) returns (r: nat, g: nat, b: nat)
    requires |h| == 6 && AllHexDigits(h)
    ensures r < 256 && g < 256 && b < 256
    ensures HexValue(h) == r * 0x1_0000 + g * 0x100 + b
    ensures HexToRgb(Some(HexValue(h))) == [r, g, b]
  {
    HexValueBound(h);
    assert Pow16(6) == 0x100_0000;
    var rgb := HexToRgb(Some(HexValue(h)));
    r, g, b := rgb[0], rgb[1], rgb[2];
  }

  /** With the hex path reading the bytes, a colour written `#` + six hex
      digits (in either case) and the same colour written `rgb(r,g,b)` get
      the same font colour, the one their luminance calls for. */
  lemma HexAndRgbAgree(h: string, r: nat, g: nat, b: nat)
    requires |h| == 6 && AllHexDigits(h)
    requires r < 256 && g < 256 && b < 256 && HexValue(h) == r * 0x1_0000 + g * 0x100 + b
    ensures FontColorIntended("#" + h) == FontColorIntended(RgbText([r, g, b]))
    ensures FontColorIntended(RgbText([r, g, b]))
            == if 299 * r + 587 * g + 114 * b > 127500 then DarkFont else LightFont
  {
    IntendedFontOfHex(h, r, g, b);
    MatchRgbText(r, g, b);
  }

  /** With the hex path reading the bytes, `#` + six hex digits gets the
      font the luminance of their bytes calls for. */
  lemma IntendedFontOfHex(h: string, r: nat, g: nat, b: nat)
    requires |h| == 6 && AllHexDigits(h)
    requires r < 256 && g < 256 && b < 256 && HexValue(h) == r * 0x1_0000 + g * 0x100 + b
    ensures FontColorIntended("#" + h)
            == if 299 * r + 587 * g + 114 * b > 127500 then DarkFont else LightFont
  {
    var s := "#" + h;
    assert MatchRgb(s).None? by {
      assert s[0] == '#';
    }
    assert HexToRgb(ParseIntHex(DropFirst(s))) == [r, g, b] by {
      assert DropFirst(s) == h;
      ParseIntHexOfDigits(h);
      HexToRgbOfBytes(r, g, b);
    }
  }
}
