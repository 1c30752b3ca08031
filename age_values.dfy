/**
 * The value types the core passes around: the agtype text a column carries
 * and the identifier of a graph entity.
 */
module AgeValues {

  /** Agtype: a value of the agtype column type, held as its text (Agtype.GetString()). */
  datatype Agtype = Agtype(text: string)

  /** GraphId: the identifier AGE gives a vertex or an edge; its Value is a 64-bit unsigned integer. */
  datatype GraphId = GraphId(value: nat)
}
