/**
 The value table a node's evaluation returns: an ordered stack of typed
 values, each remembering the node that produced it.
 */
module Tables {
  import opened Variants
  import opened Jobs

  /** The data types a table entry is tagged with (the subset the text generator uses). */
  datatype ParamType = ParamText | ParamColor | ParamCombo | ParamGenerateJob

  /** A node is referred to by its handle in the graph's node arena. */
  type NodeRef = nat

  /** What an entry carries: a plain value, or a generate job. */
  datatype Payload = Plain(v: Variant) | Job(job: GenerateJob)

  datatype Entry = Entry(tag: ParamType, value: Payload, producer: NodeRef)

  type Table = seq<Entry>

  /** Appends an entry on top of the table. */
  function Push(table: Table, tag: ParamType, value: Payload, producer: NodeRef): (t: Table)
    ensures |t| == |table| + 1
    ensures t[..|table|] == table
    ensures t[|table|] == Entry(tag, value, producer)
  {
    table + [Entry(tag, value, producer)]
  }

  /** `t` holds every entry of `base`, in order, at its start. */
  predicate Extends(t: Table, base: Table) {
    |base| <= |t| && t[..|base|] == base
  }
}
