/** Game text components as a tagged variant, in place of the text
    component class hierarchy the game server hands to event listeners. */
module Components {
  import opened Wrappers

  /** A text component.
      - `Other`: a component of any kind other than literal text or a
        translation (a keybind, score or selector component). `content`
        tells such components apart; the bridge reads it only through
        plain-text serialisation.
      - `Translatable`: a translation key with its ordered arguments.
      - `Text`: literal text, with the UUID of the entity its hover event
        shows when that hover event is a show-entity one. */
  datatype Component =
    | Other(content: string)
    | Translatable(key: string, args: seq<Component>)
    | Text(content: string, showEntity: Option<string>)

  /** Plain-text serialisation of a component. Rendering is done by a
      library outside this model, so the bridge receives it as a function. */
  type Serialiser = Component -> string

  /** The translation key a component carries: only a translatable
      component has one. */
  function TranslationKey(c: Component): (r: Option<string>)
    ensures r.Some? <==> c.Translatable?
    ensures c.Translatable? ==> r == Some(c.key)
  {
    match c
    case Translatable(key, _) => Some(key)
    case _ => None
  }

  /** The UUID of the entity a component refers to: only a literal text
      component whose hover event shows an entity has one. */
  function EntityUuid(c: Component): (r: Option<string>)
    ensures r.Some? <==> c.Text? && c.showEntity.Some?
    ensures r.Some? ==> r == c.showEntity
  {
    match c
    case Text(_, showEntity) => showEntity
    case _ => None
  }
}
