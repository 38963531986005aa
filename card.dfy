/** The `BetterButtonCard` element, without its DOM: the configuration
    `setConfig` stores (the defaults it fills in, the merged colour table and
    the CSS text built from `style`), and what a click on the button asks the
    host to do. */
module ButtonCard {
  import opened Wrappers
  import opened CardTypes
  import opened Helpers

  /** The `colors_by_state` entries every card starts from. */
  const SeedColors: map<string, string> :=
    map["off" := "var(--disabled-text-color)", "on" := "auto", "unavailable" := "yellow"]

  const DefaultSize := "40%"
  const DefaultFallbackColor := "var(--primary-text-color)"

  /** `Object.assign({off: …, on: …, unavailable: …}, colors)`: the seed
      table with the caller's entries written over it. */
  function MergeColors(caller: map<string, string>): (m: map<string, string>)
    ensures m.Keys == SeedColors.Keys + caller.Keys
    ensures forall k :: k in caller ==> m[k] == caller[k]
    ensures forall k :: k in SeedColors && k !in caller ==> m[k] == SeedColors[k]
  {
    SeedColors + caller
  }

  /** `${attribute}: ${value};` for one object of `style`, where `attribute`
      is the object's first key. An object without keys has neither, and
      both print as `undefined`. */
  function Declaration(css: StyleObject): (d: string)
    ensures css.entries != [] ==> d == css.entries[0].0 + ": " + css.entries[0].1 + ";"
    ensures css.entries == [] ==> d == "undefined: undefined;"
  {
    if css.entries == [] then "undefined: undefined;"
    else
      var (attribute, value) := css.entries[0];
      attribute + ": " + value + ";"
  }

  /** The declaration of each object of `styles`, in order. */
  function Declarations(styles: seq<StyleObject>): (ds: seq<string>)
    ensures |ds| == |styles|
    ensures forall k :: 0 <= k < |styles| ==> ds[k] == Declaration(styles[k])
  {
    seq(|styles|, k requires 0 <= k < |styles| => Declaration(styles[k]))
  }

  /** The texts of `parts` written one after the other (the effect of `+=`
      applied to each in turn, starting from `''`). */
  function Concat(parts: seq<string>): (r: string)
    ensures parts == [] ==> r == ""
    ensures parts != [] ==> |r| >= |parts[|parts| - 1]|
    ensures parts != [] ==> r[|r| - |parts[|parts| - 1]|..] == parts[|parts| - 1]
  {
    if parts == [] then "" else Concat(parts[..|parts| - 1]) + parts[|parts| - 1]
  }

  /** The CSS text `card_style` holds after the `forEach` over `styles`: one
      declaration per object, in order. */
  function CardStyle(styles: seq<StyleObject>): (r: string)
    ensures styles != [] ==> |r| > 0 && r[|r| - 1] == ';'
  {
    if styles == [] then Concat(Declarations(styles))
    else
      DeclarationNotEmpty(styles[|styles| - 1]);
      Concat(Declarations(styles))
  }

  /** The configuration `setConfig` stores for the object `user`. Every
      key the caller gives wins over the default; `colors_by_state` is the
      seed table merged with the caller's; `card_style` is built from
      `style` and is empty without one. */
  function Configured(user: UserConfig): (c: CardConfig)
    ensures c.title == user.title && c.entity == user.entity && c.icon == user.icon
    ensures c.action == user.action && c.service == user.service && c.style == user.style
    ensures c.size == if user.size.Some? then user.size.value else DefaultSize
    ensures c.fallbackColor == if user.fallbackColor.Some? then user.fallbackColor.value else DefaultFallbackColor
    ensures c.name == if user.name.Some? then user.name.value else ""
    ensures c.showStateLabel == if user.showStateLabel.Some? then user.showStateLabel.value else true
    ensures c.colorStyle == if user.colorStyle.Some? then user.colorStyle.value else ColorStyleBackground
    ensures c.colorsByState == MergeColors(if user.colorsByState.Some? then user.colorsByState.value else map[])
    ensures "off" in c.colorsByState && "on" in c.colorsByState && "unavailable" in c.colorsByState
    ensures user.style.None? ==> c.cardStyle == ""
    ensures user.style.Some? ==> c.cardStyle == CardStyle(user.style.value)
  {
    CardConfig(
      user.title, user.entity, user.icon,
      user.size.GetOr(DefaultSize),
      user.fallbackColor.GetOr(DefaultFallbackColor),
      MergeColors(user.colorsByState.GetOr(map[])),
      user.name.GetOr(""),
      user.showStateLabel.GetOr(true),
      user.colorStyle.GetOr(ColorStyleBackground),
      user.style, user.action, user.service,
      if user.style.Some? then CardStyle(user.style.value) else "")
  }

  /** The card element. `config` is `this._config`, which is undefined until
      the host first calls `setConfig`. */
  class BetterButtonCard {
    var config: Option<CardConfig>

    constructor ()
      ensures config == None
    {
      config := None;
    }

    /** `setConfig`: store the defaulted configuration, then append one
        declaration to `card_style` for each object of `style`. */
    method SetConfig(user: UserConfig)
      modifies this
      ensures config == Some(Configured(user))
    {
      var defaults := Configured(user);
      config := Some(defaults.(cardStyle := ""));
      if user.style.Some? {
        var styles := user.style.value;
        var i := 0;
        while i < |styles|
          invariant 0 <= i <= |styles|
          invariant config == Some(defaults.(cardStyle := CardStyle(styles[..i])))
        {
          CardStylePrefix(styles, i);
          config := Some(config.value.(cardStyle := config.value.cardStyle + Declaration(styles[i])));
          i := i + 1;
        }
        assert styles[..|styles|] == styles;
      }
    }
  }

  /** What `handleClick` asks of the host: nothing, a `hass-more-info`
      event for an entity, a service call, or — for the `service` action
      with no `service` configured — the TypeError reading `domain` of
      `undefined` throws. */
  datatype ClickAction =
    | NoAction
    | MoreInfo(entityId: string)
    | CallService(domain: string, service: string, data: map<string, string>)
    | MissingService

  /** The service call that toggles `entity`. */
  function Toggle(entity: string): (a: ClickAction)
    ensures a.CallService? && a.domain == "homeassistant" && a.service == "toggle"
    ensures a.data.Keys == {"entity_id"} && a.data["entity_id"] == entity
  {
    CallService("homeassistant", "toggle", map["entity_id" := entity])
  }

  /** `handleClick`: without an entity nothing happens; `more_info` opens the
      entity's dialog; `service` calls the configured service; `toggle`,
      a missing action and every other value toggle the entity. */
  function Click(config: CardConfig): (a: ClickAction)
    ensures a == NoAction <==> !Truthy(config.entity)
    ensures a.MoreInfo? <==> Truthy(config.entity) && config.action == Some(ActionMoreInfo)
    ensures a.MoreInfo? ==> a.entityId == config.entity.value
    ensures a == MissingService <==>
      Truthy(config.entity) && config.action == Some(ActionService) && config.service.None?
    ensures Truthy(config.entity) && config.action == Some(ActionService) && config.service.Some? ==>
      var svc := config.service.value;
      a == CallService(svc.domain, svc.action, svc.data)
    ensures Truthy(config.entity) && config.action != Some(ActionMoreInfo) && config.action != Some(ActionService) ==>
      a == Toggle(config.entity.value)
  {
    if !Truthy(config.entity) then NoAction
    else
      var entity := config.entity.value;
      match config.action
      case Some(action) =>
        if action == ActionMoreInfo then MoreInfo(entity)
        else if action == ActionService then
          match config.service
          case Some(svc) => CallService(svc.domain, svc.action, svc.data)
          case None => MissingService
        else Toggle(entity)
      case None => Toggle(entity)
  }

  /** Writing two lists of texts one after the other writes the first list,
      then the second. */
  lemma {:induction false} ConcatAppend(a: seq<string>, b: seq<string>)
    ensures Concat(a + b) == Concat(a) + Concat(b)
    decreases |b|
  {
    if b == [] {
      assert a + b == a;
    } else {
      var b', last := b[..|b| - 1], b[|b| - 1];
      ConcatAppend(a, b');
      var ab := a + b;
      assert ab[..|ab| - 1] == a + b' && ab[|ab| - 1] == last;
      Associative(Concat(a), Concat(b'), last);
    }
  }

  lemma Associative(x: string, y: string, z: string)
    ensures (x + y) + z == x + (y + z)
  {
  }

  /** The CSS text of a concatenation of style lists is the concatenation of
      their CSS texts: each object contributes its declaration on its own,
      in order. */
  lemma CardStyleAppend(a: seq<StyleObject>, b: seq<StyleObject>)
    ensures CardStyle(a + b) == CardStyle(a) + CardStyle(b)
  {
    assert Declarations(a + b) == Declarations(a) + Declarations(b);
    ConcatAppend(Declarations(a), Declarations(b));
  }

  /** One more style object appends its declaration: the step of the
      `forEach` loop. */
  lemma CardStyleSnoc(styles: seq<StyleObject>, css: StyleObject)
    ensures CardStyle(styles + [css]) == CardStyle(styles) + Declaration(css)
  {
    var ds := Declarations(styles + [css]);
    assert ds[..|ds| - 1] == Declarations(styles);
  }

  /** The CSS text of the first `i + 1` objects is that of the first `i`
      followed by the declaration of object `i`. */
  lemma CardStylePrefix(styles: seq<StyleObject>, i: nat)
    requires i < |styles|
    ensures CardStyle(styles[..i + 1]) == CardStyle(styles[..i]) + Declaration(styles[i])
  {
    var ds := Declarations(styles[..i + 1]);
    assert ds[..i] == Declarations(styles[..i]);
  }

  /** Each object of a style list contributes its own declaration at its
      own place: everything before it, then `attribute: value;`, then
      everything after it. */
  lemma CardStyleAt(styles: seq<StyleObject>, i: nat)
    requires i < |styles|
    ensures CardStyle(styles) == CardStyle(styles[..i]) + Declaration(styles[i]) + CardStyle(styles[i + 1..])
  {
    var before, after := styles[..i], styles[i + 1..];
    assert styles[..i + 1] == before + [styles[i]];
    assert styles == styles[..i + 1] + after;
    CardStyleAppend(before + [styles[i]], after);
    CardStyleSnoc(before, styles[i]);
  }

  /** `card_style` is empty exactly when there is no style object to write. */
  lemma CardStyleEmpty(styles: seq<StyleObject>)
    ensures styles == [] ==> CardStyle(styles) == ""
    ensures styles != [] ==> |CardStyle(styles)| > 0
  {
    if styles == [] {
      assert Declarations(styles) == [];
    }
  }

  /** Every declaration ends in `;`, so none is empty. */
  lemma DeclarationNotEmpty(css: StyleObject)
    ensures |Declaration(css)| > 0 && Declaration(css)[|Declaration(css)| - 1] == ';'
  {
  }

  /** A card configured with an entity and nothing else toggles that entity
      when clicked. */
  lemma DefaultClickToggles(user: UserConfig)
    requires Truthy(user.entity) && user.action.None?
    ensures Click(Configured(user)) == Toggle(user.entity.value)
  {
  }

  /** With no `colors_by_state` and no `fallback_color` in the caller's
      configuration, `off` is shown in the disabled text colour,
      `unavailable` in yellow, `on` in the colour the entity reports (or
      the primary text colour when it reports none), and any other state
      in the primary text colour. */
  lemma DefaultStateColors(user: UserConfig, attributes: Attributes, other: string)
    requires user.colorsByState.None? && user.fallbackColor.None?
    requires other !in SeedColors
    ensures ColorForState(Some(EntityState("off", attributes)), Configured(user)) == "var(--disabled-text-color)"
    ensures ColorForState(Some(EntityState("unavailable", attributes)), Configured(user)) == "yellow"
    ensures ColorForState(Some(EntityState("on", attributes)), Configured(user)) ==
      if attributes.rgbColor.Some? then RgbText(attributes.rgbColor.value) else DefaultFallbackColor
    ensures ColorForState(Some(EntityState(other, attributes)), Configured(user)) == DefaultFallbackColor
    ensures ColorForState(None, Configured(user)) == DefaultFallbackColor
  {
    var c := Configured(user);
    assert c.colorsByState == SeedColors;
  }

  /** A caller's entry for a state is what that state shows, unless the
      entry is empty or `auto`; a caller's empty entry falls back rather
      than showing the seed colour. */
  lemma CallerColorWins(user: UserConfig, st: EntityState)
    requires user.colorsByState.Some? && st.state in user.colorsByState.value
    ensures var entry := user.colorsByState.value[st.state];
            var color := ColorForState(Some(st), Configured(user));
            && (entry != "" && entry != "auto" ==> color == entry)
            && (entry == "" ==> color == Configured(user).fallbackColor)
  {
  }
}
