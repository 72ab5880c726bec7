/** The `config.xml` property store, seen as what it holds: one string
    value per property name. Opening, flushing and closing the file are not
    part of this model. */
module ConfigStore {
  type Store = map<string, string>

  /** `reset_configuration`: every property is deleted. */
  function Reset(store: Store): (r: Store)
    ensures forall k :: k !in r
  {
    map[]
  }
}
