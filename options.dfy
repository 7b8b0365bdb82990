/** The optional value a lookup in the block table gives: JavaScript's
    `undefined` for an absent key becomes None. */
module Options {
  datatype Option<+T> = None | Some(value: T)
}
