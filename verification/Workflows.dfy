/** The predictor-relevant view of one parsed workflow file (internal/predictor/workflow/parse.go). */
module Workflows {

  datatype RunsOn = RunsOn(labels: seq<string>, group: string, isDynamic: bool)

  datatype Matrix = Matrix(combos: seq<map<string, string>>, isDynamic: bool)

  datatype Job = Job(needs: seq<string>, runsOn: RunsOn, matrix: Matrix, usesLocal: string, usesRemote: bool)

  /** Jobs by job ID. Parsing copies the map key into the job's own ID field, so only the key is kept. */
  datatype Workflow = Workflow(jobs: map<string, Job>)

  /** What fetching a path at a fixed commit gives: a parsed workflow or YAML that does not parse. */
  datatype File = Unparsable | Parsed(workflow: Workflow)

  /** The repository at one commit; a path outside the map cannot be fetched. */
  type Files = map<string, File>

  function ResolveLabels(r: RunsOn): seq<string>
  {
    if r.group == "" then r.labels else ["group:" + r.group] + r.labels
  }

  /** One start per matrix combination, or one when there is no matrix. */
  function StartCount(job: Job): (n: nat)
    ensures n >= 1
  {
    if |job.matrix.combos| > 0 then |job.matrix.combos| else 1
  }

  /**
   How many starts on exactly these labels a job asks for by itself, read from its fields: one
   per matrix combination and at least one, unless it calls a workflow or is not literal.
   */
  ghost function AsksFor(job: Job, labels: seq<string>): nat
  {
    if job.usesRemote || job.usesLocal != "" || job.runsOn.isDynamic || job.matrix.isDynamic then 0
    else if labels != (if job.runsOn.group != "" then ["group:" + job.runsOn.group] else []) + job.runsOn.labels then 0
    else if job.matrix.combos == [] then 1
    else |job.matrix.combos|
  }

  /** Not yet materialized, with every need materialized. */
  predicate Imminent(id: string, job: Job, materialized: set<string>)
  {
    id !in materialized && forall n :: n in job.needs ==> n in materialized
  }

  /** The jobs a walk does not skip. */
  ghost function ImminentJobs(wf: Workflow, materialized: set<string>): set<string>
  {
    set id | id in wf.jobs && Imminent(id, wf.jobs[id], materialized)
  }

  function LocalPath(uses: string): string
  {
    if "./" <= uses then uses[2..] else uses
  }
}
