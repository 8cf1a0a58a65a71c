/**
 * The node shapes of the report tree (lib/types.ts).
 *
 * Every node kind has a `name` and an optional `id`. An entry is a leaf with a
 * free-text `note` and its own numeric `sum`; a section has an ordered list of
 * children. The source tells the two apart by the presence of `sum` versus
 * `children`; here that is the datatype's constructor tag, which is exclusive
 * by construction.
 */
module Types {

  datatype Option<+T> = None | Some(value: T)

  /** A node as it is received from the data source: sections carry no aggregate. */
  datatype RawNode =
    | RawEntry(name: string, note: string, sum: int, id: Option<string>)
    | RawSection(name: string, children: seq<RawNode>, id: Option<string>)

  /**
   * A node as it is displayed and edited: an `Entry | ComputedSection` in the
   * source. Entries have the same fields as raw entries; a computed section also
   * carries `computedSum`, and its children are computed nodes only.
   */
  datatype ComputedNode =
    | Entry(name: string, note: string, sum: int, id: Option<string>)
    | ComputedSection(name: string, children: seq<ComputedNode>, computedSum: int, id: Option<string>)
}
