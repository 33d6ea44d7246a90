/** What every admission asks about the columns of a file. */
module Columns {
  import opened Options

  /** The native identity column, and the reserved name on the wire. */
  const ID_COLUMN := "id"

  /** When a bound name cannot be put in a statement and read back under the same name: U+0000, or an
      export name other than the bound one. */
  predicate NotAddressable(bound: string, exported: Option<string>) {
    '\0' in bound || (exported.Some? && exported.value != bound)
  }

  /** `find(|f| f.name() == name)`: the first column of that name. */
  function FirstNamed<T(==)>(columns: seq<T>, nameOf: T -> string, name: string): (r: Option<T>)
    ensures r.Some? ==> r.value in columns && nameOf(r.value) == name
    ensures r.None? ==> forall i :: 0 <= i < |columns| ==> nameOf(columns[i]) != name
  {
    if columns == [] then None
    else if nameOf(columns[0]) == name then Some(columns[0])
    else FirstNamed(columns[1..], nameOf, name)
  }
}
