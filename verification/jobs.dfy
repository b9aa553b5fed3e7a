/**
 The value database of one evaluation pass and the generate job that
 snapshots values out of it.
 */
module Jobs {
  import opened Variants

  /** Inputs are addressed by their identifier string. */
  type InputId = string

  /** The values of one evaluation pass, resolved per input. */
  type Database = map<InputId, Variant>

  /** The value an input resolves to; an input the database knows nothing of is unset. */
  function Resolve(db: Database, id: InputId): Variant {
    if id in db then db[id] else Empty
  }

  /**
   A deferred frame-generation request: an owned copy of the input values it
   needs and whether the frame it produces needs an alpha channel.
   */
  datatype GenerateJob = GenerateJob(values: map<InputId, Variant>, alphaRequired: bool)

  /** A default-constructed job: no values, no alpha requirement. */
  const EmptyJob: GenerateJob := GenerateJob(map[], false)

  /** The value the job holds for an input, unset when it holds none. */
  function GetValue(job: GenerateJob, id: InputId): (v: Variant)
    ensures id in job.values ==> v == job.values[id]
    ensures id !in job.values ==> v == Empty
  {
    if id in job.values then job.values[id] else Empty
  }

  /** Copies the value `id` resolves to in `db` into the job. */
  function InsertValue(job: GenerateJob, id: InputId, db: Database): (j: GenerateJob)
    ensures j.values.Keys == job.values.Keys + {id}
    ensures GetValue(j, id) == Resolve(db, id)
    ensures forall other :: other in job.values && other != id ==> j.values[other] == job.values[other]
    ensures j.alphaRequired == job.alphaRequired
  {
    job.(values := job.values[id := Resolve(db, id)])
  }

  function SetAlphaChannelRequired(job: GenerateJob, required: bool): (j: GenerateJob)
    ensures j.values == job.values
    ensures j.alphaRequired == required
  {
    job.(alphaRequired := required)
  }
}
