/** How update_book and update_member read an optional text argument: Python's truthiness test
    `if title:`, under which a missing argument and the empty string both mean "leave as is". */
module Arguments {
  import opened Wrappers

  /** An optional text argument counts as given when it is present and not the empty string. */
  predicate Supplied(o: Option<string>)
  {
    o.Some? && o.value != ""
  }

  /** The value a field holds after `if arg: field = arg`. */
  function Overwrite(o: Option<string>, current: string): string
  {
    if Supplied(o) then o.value else current
  }

  /** A given argument is written; writing the same argument twice leaves what writing it once
      does; and the field is left as it is exactly when the argument is not given or already
      its value. */
  lemma OverwriteSettles(o: Option<string>, current: string)
    ensures Supplied(o) ==> Overwrite(o, current) == o.value
    ensures Overwrite(o, Overwrite(o, current)) == Overwrite(o, current)
    ensures Overwrite(o, current) == current <==> !Supplied(o) || o.value == current
  {
  }
}
