/** The values the card works on: the entity state the host hands it, the
    configuration object the user writes, and the card's own configuration
    once defaults have been filled in. A JavaScript property that an object
    may or may not have is an `Option`; `None` is a missing key. */
module CardTypes {
  import opened Wrappers

  /** `COLOR_STYLES`: where the state colour is applied. */
  const ColorStyleBackground := "background"
  const ColorStyleIcon := "icon"

  /** `ACTIONS`: what a click does. */
  const ActionToggle := "toggle"
  const ActionMoreInfo := "more_info"
  const ActionService := "service"

  /** The attributes of an entity's state that the card reads. `rgbColor` is
      an array of numbers when present (any array is truthy, even an empty one). */
  datatype Attributes = Attributes(rgbColor: Option<seq<int>>, icon: Option<string>)

  /** One entry of the host's `states` table. */
  datatype EntityState = EntityState(state: string, attributes: Attributes)

  /** One object of the `style` list: its own keys with their values, in
      key order. A JavaScript object has each key at most once, so the
      keys of `entries` are meant to be distinct; a literal that repeats a
      key keeps its first position with its last value. */
  datatype StyleObject = StyleObject(entries: seq<(string, string)>)

  /** The `service` part of the configuration: what a click calls. */
  datatype ServiceCall = ServiceCall(domain: string, action: string, data: map<string, string>)

  /** The configuration object the user writes. */
  datatype UserConfig = UserConfig(
    title: Option<string>,
    entity: Option<string>,
    icon: Option<string>,
    size: Option<string>,
    fallbackColor: Option<string>,
    colorsByState: Option<map<string, string>>,
    name: Option<string>,
    showStateLabel: Option<bool>,
    colorStyle: Option<string>,
    style: Option<seq<StyleObject>>,
    action: Option<string>,
    service: Option<ServiceCall>)

  /** The card's configuration after `setConfig`: the keys that have a
      default are always present, and `cardStyle` is the CSS text built from
      `style`. */
  datatype CardConfig = CardConfig(
    title: Option<string>,
    entity: Option<string>,
    icon: Option<string>,
    size: string,
    fallbackColor: string,
    colorsByState: map<string, string>,
    name: string,
    showStateLabel: bool,
    colorStyle: string,
    style: Option<seq<StyleObject>>,
    action: Option<string>,
    service: Option<ServiceCall>,
    cardStyle: string)

  /** JavaScript truthiness of a string property: present and not empty. */
  predicate Truthy(s: Option<string>)
    ensures Truthy(s) ==> s.Some? && |s.value| > 0
    ensures s.None? ==> !Truthy(s)
  {
    s.Some? && s.value != ""
  }
}
