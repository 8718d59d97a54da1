/** The experiment runner: one experiment row, then a fold over the prompt specifications in
    configured order that threads the store. Each step renders, records the prompt, generates,
    records the response, scores it and records the evaluation; a failure ends only its own
    step. */
module ExperimentRunner {
  import opened Wrappers
  import opened ExperimentConfig
  import PromptLoader
  import LlmClient
  import Evaluator
  import Database
  import Metrics

  /** How one prompt specification ended. */
  datatype Outcome =
    | RenderFailed
    | GenerationFailed(promptId: nat, error: string)
    | Completed(promptId: nat, responseId: nat, evaluationId: nat)

  /** What the runner works with besides the store: the loaded templates, the client and the
      remote service, whose reply to the spec at position `i` is `oracle(i, request)`. */
  datatype Collaborators = Collaborators(
    templates: PromptLoader.TemplateStore,
    client: LlmClient.Client,
    oracle: LlmClient.Oracle)

  /** The client the runner constructs: the configured model, or the fallback model when the
      `model` entry is absent, or `DEFAULT_MODEL` (else the fallback) when the configured
      model is the empty string. */
  function RunnerClient(cfg: Config, env: LlmClient.Environment): (r: Option<LlmClient.Client>)
    ensures r.None? <==> env.apiKey.None? || env.apiKey.value == ""
    ensures r.Some? && cfg.model.Some? && cfg.model.value != "" ==> r.value.model == cfg.model.value
    ensures r.Some? && cfg.model.None? ==> r.value.model == LlmClient.FallbackModel
    ensures r.Some? && cfg.model == Some("") ==> r.value.model == env.defaultModel.GetOr(LlmClient.FallbackModel)
  {
    LlmClient.NewClient(Some(cfg.model.GetOr(LlmClient.FallbackModel)), env)
  }

  /** The experiment name: the configured one, or `experiment_` followed by the start time when
      the `experiment_name` entry is absent. */
  function ExperimentName(cfg: Config, startedAt: string): (name: string)
    ensures cfg.experimentName.Some? ==> name == cfg.experimentName.value
    ensures cfg.experimentName.None? ==>
      |name| == 11 + |startedAt| && name[..11] == "experiment_" && name[11..] == startedAt
  {
    cfg.experimentName.GetOr("experiment_" + startedAt)
  }

  /** The prompt text of a spec, or `None` when rendering fails or yields the empty text. */
  function RenderSpec(templates: PromptLoader.TemplateStore, spec: PromptSpec): (r: Option<string>)
    ensures r.Some? <==>
      PromptLoader.RenderTemplate(templates, spec.template, spec.variables).Some?
      && PromptLoader.RenderTemplate(templates, spec.template, spec.variables).value != ""
    ensures r.Some? ==> r == PromptLoader.RenderTemplate(templates, spec.template, spec.variables)
  {
    match PromptLoader.RenderTemplate(templates, spec.template, spec.variables)
    case None => None
    case Some(text) => if text == "" then None else Some(text)
  }

  /** The generation for the spec at position `index` with prompt text `text`. */
  function Generate(ctx: Collaborators, spec: PromptSpec, text: string, index: nat): Result<LlmClient.Generation, string> {
    LlmClient.GenerateResponse(ctx.client, text, spec.temperature, spec.maxTokens, ctx.oracle, index)
  }

  const NotePrefix := "Automated evaluation for "

  /** `_process_prompt` for the spec at position `index`. */
  function ProcessPrompt(st: Database.Store, experimentId: nat, spec: PromptSpec, index: nat,
                         ctx: Collaborators): (r: (Database.Store, Outcome))
    ensures r.1.RenderFailed? <==> RenderSpec(ctx.templates, spec).None?
    ensures r.1.GenerationFailed? <==>
      RenderSpec(ctx.templates, spec).Some? && Generate(ctx, spec, RenderSpec(ctx.templates, spec).value, index).Err?
    ensures r.1.RenderFailed? ==> r.0 == st
    ensures r.1.GenerationFailed? ==>
      |r.0.prompts| == |st.prompts| + 1 && r.0.responses == st.responses && r.0.evaluations == st.evaluations
    ensures r.1.Completed? ==>
      |r.0.prompts| == |st.prompts| + 1 && |r.0.responses| == |st.responses| + 1
      && |r.0.evaluations| == |st.evaluations| + 1
    ensures !r.1.RenderFailed? ==>
      r.0.prompts[|st.prompts|].id == r.1.promptId
      && r.0.prompts[|st.prompts|].val == Database.PromptData(experimentId, spec.template,
           RenderSpec(ctx.templates, spec).value, Database.StoredVariables(Some(spec.variables)))
    ensures !r.1.RenderFailed? ==> forall j :: 0 <= j < |st.prompts| ==> st.prompts[j].id < r.1.promptId
    ensures IntendedRow(ctx.templates, experimentId, spec).Some? ==>
      NewRow(st.prompts, r.0.prompts, r.1, IntendedRow(ctx.templates, experimentId, spec).value)
    ensures r.0.experiments == st.experiments
    ensures Database.Valid(st) ==> Database.Valid(r.0)
    ensures Database.Linked(st) && Database.HasId(st.experiments, experimentId) ==> Database.Linked(r.0)
    ensures Database.ScoresInRange(st) ==> Database.ScoresInRange(r.0)
    ensures Grows(st, r.0)
  {
    match RenderSpec(ctx.templates, spec)
    case None => (st, RenderFailed)
    case Some(text) =>
      var (st1, promptId) := Database.CreatePrompt(st, experimentId, spec.template, text, Some(spec.variables));
      assert Database.HasId(st1.prompts, promptId) by {
        assert st1.prompts[|st.prompts|].id == promptId;
      }
      match Generate(ctx, spec, text, index)
      case Err(message) => (st1, GenerationFailed(promptId, message))
      case Ok(g) =>
        var (st3, responseId, evaluationId) := RecordGeneration(st1, promptId, spec.template, text, g);
        (st3, Completed(promptId, responseId, evaluationId))
  }

  /** The rest of a step whose generation succeeded: the response row under the prompt, then
      its evaluation row, scored by the evaluator. */
  function RecordGeneration(st: Database.Store, promptId: nat, template: string, text: string,
                            g: LlmClient.Generation): (r: (Database.Store, nat, nat))
    ensures r.0.responses == st.responses
      + [Database.Row(r.1, st.clock, Database.ResponseData(promptId, g.responseText, g.model, g.tokensUsed, g.responseTime))]
    ensures r.0.evaluations == st.evaluations
      + [Database.Row(r.2, st.clock + 1, Database.EvaluationData(r.1,
           Database.ScoresFrom(Evaluator.Evaluate(text, g.responseText, g.responseTime, g.tokensUsed)),
           NotePrefix + template))]
    ensures r.0.experiments == st.experiments && r.0.prompts == st.prompts
    ensures Database.Valid(st) ==> Database.Valid(r.0)
    ensures Database.Linked(st) && Database.HasId(st.prompts, promptId) ==> Database.Linked(r.0)
    ensures Database.ScoresInRange(st) ==> Database.ScoresInRange(r.0)
  {
    var (st2, responseId) := Database.CreateResponse(st, promptId, g.responseText, g.model, g.tokensUsed, g.responseTime);
    assert Database.HasId(st2.responses, responseId) by {
      assert st2.responses[|st.responses|].id == responseId;
    }
    var scores := Evaluator.Evaluate(text, g.responseText, g.responseTime, g.tokensUsed);
    var (st3, evaluationId) := Database.CreateEvaluation(st2, responseId, scores, NotePrefix + template);
    (st3, responseId, evaluationId)
  }

  /** What a completed step records: the rendered prompt under its template name, the
      generation linked to that prompt, and an evaluation linked to the response whose every
      score column holds that dimension's score of the generation. */
  lemma CompletedRows(st: Database.Store, experimentId: nat, spec: PromptSpec, index: nat,
                      ctx: Collaborators, d: Metrics.Dimension)
    requires ProcessPrompt(st, experimentId, spec, index, ctx).1.Completed?
    ensures var (st', o) := ProcessPrompt(st, experimentId, spec, index, ctx);
      var text := RenderSpec(ctx.templates, spec).value;
      var g := Generate(ctx, spec, text, index).value;
      && Generate(ctx, spec, text, index).Ok?
      && st'.prompts[|st.prompts|].id == o.promptId
      && st'.prompts[|st.prompts|].val
           == Database.PromptData(experimentId, spec.template, text, Database.StoredVariables(Some(spec.variables)))
      && st'.responses[|st.responses|].id == o.responseId
      && st'.responses[|st.responses|].val
           == Database.ResponseData(o.promptId, g.responseText, ctx.client.model, g.tokensUsed, g.responseTime)
      && st'.evaluations[|st.evaluations|].id == o.evaluationId
      && st'.evaluations[|st.evaluations|].val.responseId == o.responseId
      && st'.evaluations[|st.evaluations|].val.notes == NotePrefix + spec.template
      && Database.Score(st'.evaluations[|st.evaluations|].val.scores, d)
           == Some(Evaluator.ScoreOf(d, text, g.responseText, g.responseTime, g.tokensUsed))
  {
    var text := RenderSpec(ctx.templates, spec).value;
    var g := Generate(ctx, spec, text, index).value;
    Evaluator.EvaluateEntries(text, g.responseText, g.responseTime, g.tokensUsed, d);
  }

  /** The tables only grow by appending: every existing row stays where it was. */
  predicate Grows(a: Database.Store, b: Database.Store) {
    a.experiments <= b.experiments && a.prompts <= b.prompts
    && a.responses <= b.responses && a.evaluations <= b.evaluations
  }

  /** The number of outcomes that created a prompt row. */
  function PromptsCreated(outs: seq<Outcome>): (n: nat)
    ensures n <= |outs|
  {
    if |outs| == 0 then 0
    else PromptsCreated(outs[..|outs| - 1]) + (if outs[|outs| - 1].RenderFailed? then 0 else 1)
  }

  /** The number of outcomes that created a response and an evaluation. */
  function Completions(outs: seq<Outcome>): (n: nat)
    ensures n <= PromptsCreated(outs)
  {
    if |outs| == 0 then 0
    else Completions(outs[..|outs| - 1]) + (if outs[|outs| - 1].Completed? then 1 else 0)
  }

  /** The prompt row a spec asks `create_prompt` to write: its template, rendered text and
      variables under the experiment, or none when it does not render. */
  function IntendedRow(templates: PromptLoader.TemplateStore, experimentId: nat, spec: PromptSpec)
    : Option<Database.PromptData>
  {
    match RenderSpec(templates, spec)
    case None => None
    case Some(text) =>
      Some(Database.PromptData(experimentId, spec.template, text, Database.StoredVariables(Some(spec.variables))))
  }

  /** The intended prompt rows of a list of specs, position by position. */
  function IntendedRows(templates: PromptLoader.TemplateStore, experimentId: nat, specs: seq<PromptSpec>)
    : (rows: seq<Option<Database.PromptData>>)
    ensures |rows| == |specs|
    ensures forall i :: 0 <= i < |specs| ==> rows[i] == IntendedRow(templates, experimentId, specs[i])
  {
    seq(|specs|, i requires 0 <= i < |specs| => IntendedRow(templates, experimentId, specs[i]))
  }

  /** The intended rows of a list are those of all but its last spec, then the last one's. */
  lemma IntendedRowsSnoc(templates: PromptLoader.TemplateStore, experimentId: nat, specs: seq<PromptSpec>)
    requires |specs| > 0
    ensures IntendedRows(templates, experimentId, specs)
      == IntendedRows(templates, experimentId, specs[..|specs| - 1])
         + [IntendedRow(templates, experimentId, specs[|specs| - 1])]
  {
  }

  /** The outcome at position `i` created a prompt row, and that row is `row`, placed right
      after the rows of the earlier outcomes (the table had `first` rows before them), under
      the outcome's id, which exceeds every id before it. */
  predicate PlacedAt(prompts: Database.Table<Database.PromptData>, outs: seq<Outcome>, first: nat, i: nat,
                     row: Database.PromptData)
    requires i < |outs|
  {
    var k := first + PromptsCreated(outs[..i]);
    && !outs[i].RenderFailed?
    && k < |prompts|
    && prompts[k].id == outs[i].promptId
    && prompts[k].val == row
    && forall j :: 0 <= j < k ==> prompts[j].id < outs[i].promptId
  }

  /** The prompt rows of a loop sit where the list puts them: every position with an intended
      row has its outcome's row placed after the rows of the positions before it, holding
      exactly that row, and so the ids of those rows increase along the list. */
  predicate Placement(prompts: Database.Table<Database.PromptData>, outs: seq<Outcome>, first: nat,
                      rows: seq<Option<Database.PromptData>>)
  {
    && |outs| == |rows|
    && (forall i :: 0 <= i < |rows| && rows[i].Some? ==> PlacedAt(prompts, outs, first, i, rows[i].value))
    && (forall i, j :: 0 <= i < j < |rows| && rows[i].Some? && rows[j].Some? ==>
          !outs[i].RenderFailed? && !outs[j].RenderFailed? && outs[i].promptId < outs[j].promptId)
  }

  /** `row` is the prompt row the step appended, under the id of its outcome, which exceeds
      every id before it. */
  predicate NewRow(p1: Database.Table<Database.PromptData>, p2: Database.Table<Database.PromptData>, o: Outcome,
                   row: Database.PromptData)
  {
    && !o.RenderFailed? && |p1| < |p2| && p2[|p1|].id == o.promptId && p2[|p1|].val == row
    && forall j :: 0 <= j < |p1| ==> p1[j].id < o.promptId
  }

  /** Appending rows and an outcome keeps an earlier outcome's row in place. */
  lemma PlacedExtends(p1: Database.Table<Database.PromptData>, p2: Database.Table<Database.PromptData>,
                      outs: seq<Outcome>, o: Outcome, first: nat, i: nat, row: Database.PromptData)
    requires p1 <= p2 && i < |outs| && PlacedAt(p1, outs, first, i, row)
    ensures PlacedAt(p2, outs + [o], first, i, row)
  {
    assert (outs + [o])[..i] == outs[..i];
    assert (outs + [o])[i] == outs[i];
    var k := first + PromptsCreated(outs[..i]);
    assert forall j :: 0 <= j <= k ==> p2[j] == p1[j];
  }

  /** The row the last outcome created is placed after all rows of the earlier ones. */
  lemma PlacedLast(p1: Database.Table<Database.PromptData>, p2: Database.Table<Database.PromptData>,
                   outs: seq<Outcome>, o: Outcome, first: nat, row: Database.PromptData)
    requires p1 <= p2 && |p1| == first + PromptsCreated(outs) && NewRow(p1, p2, o, row)
    ensures PlacedAt(p2, outs + [o], first, |outs|, row)
  {
    var outs' := outs + [o];
    assert outs'[..|outs|] == outs && outs'[|outs|] == o;
    forall j | 0 <= j < |p1|
      ensures p2[j].id < o.promptId
    {
      assert p2[j] == p1[j];
    }
  }

  /** Of two outcomes that created prompt rows, the later one's row has the larger id. */
  lemma PlacedIncrease(prompts: Database.Table<Database.PromptData>, outs: seq<Outcome>, first: nat, i: nat, j: nat,
                       rowI: Database.PromptData, rowJ: Database.PromptData)
    requires i < j < |outs| && PlacedAt(prompts, outs, first, i, rowI) && PlacedAt(prompts, outs, first, j, rowJ)
    ensures outs[i].promptId < outs[j].promptId
  {
    PromptsCreatedGrows(outs, i, j);
    var k := first + PromptsCreated(outs[..i]);
    assert prompts[k].id == outs[i].promptId;
  }

  /** One step of the loop keeps the rows of the earlier positions in place and places the
      row of its own position, when it has one, right after them. */
  lemma PlacedStep(p1: Database.Table<Database.PromptData>, p2: Database.Table<Database.PromptData>,
                   outs: seq<Outcome>, o: Outcome, first: nat,
                   rows: seq<Option<Database.PromptData>>, row: Option<Database.PromptData>)
    requires p1 <= p2 && |p1| == first + PromptsCreated(outs)
    requires Placement(p1, outs, first, rows)
    requires row.Some? ==> NewRow(p1, p2, o, row.value)
    ensures Placement(p2, outs + [o], first, rows + [row])
  {
    var rows', outs' := rows + [row], outs + [o];
    forall i | 0 <= i < |rows'| && rows'[i].Some?
      ensures PlacedAt(p2, outs', first, i, rows'[i].value)
    {
      if i < |outs| {
        PlacedExtends(p1, p2, outs, o, first, i, rows[i].value);
      } else {
        PlacedLast(p1, p2, outs, o, first, row.value);
      }
    }
    forall i, j | 0 <= i < j < |rows'| && rows'[i].Some? && rows'[j].Some?
      ensures !outs'[i].RenderFailed? && !outs'[j].RenderFailed? && outs'[i].promptId < outs'[j].promptId
    {
      PlacedIncrease(p2, outs', first, i, j, rows'[i].value, rows'[j].value);
    }
  }

  /** The loop of `run` over the specs, in configured order; the spec at position `i` is
      generated with call `i`. */
  function ProcessAll(st: Database.Store, experimentId: nat, specs: seq<PromptSpec>,
                      ctx: Collaborators): (r: (Database.Store, seq<Outcome>))
    ensures |r.1| == |specs|
    ensures r.0.experiments == st.experiments
    ensures Grows(st, r.0)
    ensures |r.0.prompts| == |st.prompts| + PromptsCreated(r.1)
    ensures |r.0.responses| == |st.responses| + Completions(r.1)
    ensures |r.0.evaluations| == |st.evaluations| + Completions(r.1)
    ensures forall i :: |st.prompts| <= i < |r.0.prompts| ==> r.0.prompts[i].val.experimentId == experimentId
    ensures Placement(r.0.prompts, r.1, |st.prompts|, IntendedRows(ctx.templates, experimentId, specs))
    ensures Database.Valid(st) ==> Database.Valid(r.0)
    ensures Database.Linked(st) && Database.HasId(st.experiments, experimentId) ==> Database.Linked(r.0)
    ensures Database.ScoresInRange(st) ==> Database.ScoresInRange(r.0)
    decreases |specs|
  {
    if |specs| == 0 then (st, [])
    else
      var (st1, outs) := ProcessAll(st, experimentId, specs[..|specs| - 1], ctx);
      var (st2, o) := ProcessPrompt(st1, experimentId, specs[|specs| - 1], |specs| - 1, ctx);
      assert (outs + [o])[..|outs|] == outs;
      PromptsOfExperiment(st, st1, st2, experimentId);
      IntendedRowsSnoc(ctx.templates, experimentId, specs);
      PlacedStep(st1.prompts, st2.prompts, outs, o, |st.prompts|,
                 IntendedRows(ctx.templates, experimentId, specs[..|specs| - 1]),
                 IntendedRow(ctx.templates, experimentId, specs[|specs| - 1]));
      (st2, outs + [o])
  }

  /** The prompts added over two steps, each adding only prompts of the experiment, are all
      prompts of the experiment. */
  lemma PromptsOfExperiment(st: Database.Store, st1: Database.Store, st2: Database.Store, experimentId: nat)
    requires st.prompts <= st1.prompts <= st2.prompts
    requires forall i :: |st.prompts| <= i < |st1.prompts| ==> st1.prompts[i].val.experimentId == experimentId
    requires |st2.prompts| <= |st1.prompts| + 1
    requires |st2.prompts| > |st1.prompts| ==> st2.prompts[|st1.prompts|].val.experimentId == experimentId
    ensures forall i :: |st.prompts| <= i < |st2.prompts| ==> st2.prompts[i].val.experimentId == experimentId
  {
    forall i | |st.prompts| <= i < |st1.prompts|
      ensures st2.prompts[i].val.experimentId == experimentId
    {
      assert st2.prompts[i] == st1.prompts[i];
    }
  }

  /** The outcome of each spec is decided by that spec alone: its rendering and the reply to
      its own call, whatever happened to the specs before it. */
  lemma {:induction false} OutcomeAt(st: Database.Store, experimentId: nat, specs: seq<PromptSpec>,
                                     ctx: Collaborators, i: nat)
    requires i < |specs|
    ensures var o := ProcessAll(st, experimentId, specs, ctx).1[i];
      && (o.RenderFailed? <==> RenderSpec(ctx.templates, specs[i]).None?)
      && (o.GenerationFailed? <==>
            RenderSpec(ctx.templates, specs[i]).Some?
            && Generate(ctx, specs[i], RenderSpec(ctx.templates, specs[i]).value, i).Err?)
    decreases |specs|
  {
    var init := specs[..|specs| - 1];
    if i < |specs| - 1 {
      OutcomeAt(st, experimentId, init, ctx, i);
      assert init[i] == specs[i];
    }
  }

  /** A prefix ending after an outcome that created a prompt row counts that row. */
  lemma {:induction false} PromptsCreatedGrows(outs: seq<Outcome>, i: nat, j: nat)
    requires i < j <= |outs| && !outs[i].RenderFailed?
    ensures PromptsCreated(outs[..i]) < PromptsCreated(outs[..j])
    decreases j
  {
    var pre := outs[..j];
    assert pre[..j - 1] == outs[..j - 1];
    if i < j - 1 {
      PromptsCreatedGrows(outs, i, j - 1);
    } else {
      assert pre[j - 1] == outs[i];
    }
  }

  /** The identity and final store of a run, and the outcome of every spec. */
  datatype RunResult = RunResult(experimentId: nat, store: Database.Store, outcomes: seq<Outcome>)

  /** `run`: creates the experiment row, processes every spec and returns the new
      experiment's id. */
  function Run(st: Database.Store, cfg: Config, startedAt: string, ctx: Collaborators): (r: RunResult)
    ensures |r.outcomes| == |cfg.prompts|
    ensures !Database.HasId(st.experiments, r.experimentId)
    ensures |r.store.experiments| == |st.experiments| + 1
    ensures r.store.experiments[|st.experiments|]
      == Database.Row(r.experimentId, st.clock, Database.ExperimentData(ExperimentName(cfg, startedAt), cfg))
    ensures Grows(st, r.store)
    ensures |r.store.prompts| == |st.prompts| + PromptsCreated(r.outcomes)
    ensures |r.store.responses| == |st.responses| + Completions(r.outcomes)
    ensures |r.store.evaluations| == |st.evaluations| + Completions(r.outcomes)
    ensures forall i :: |st.prompts| <= i < |r.store.prompts| ==>
      r.store.prompts[i].val.experimentId == r.experimentId
    ensures Placement(r.store.prompts, r.outcomes, |st.prompts|, IntendedRows(ctx.templates, r.experimentId, cfg.prompts))
    ensures Database.Valid(st) ==> Database.Valid(r.store)
    ensures Database.Linked(st) ==> Database.Linked(r.store)
    ensures Database.ScoresInRange(st) ==> Database.ScoresInRange(r.store)
  {
    var (st1, experimentId) := Database.CreateExperiment(st, ExperimentName(cfg, startedAt), cfg);
    assert Database.HasId(st1.experiments, experimentId) by {
      assert st1.experiments[|st.experiments|].id == experimentId;
    }
    var (st2, outs) := ProcessAll(st1, experimentId, cfg.prompts, ctx);
    RunResult(experimentId, st2, outs)
  }

  lemma CountsOfThree(outs: seq<Outcome>)
    requires |outs| == 3
    requires outs[0].Completed? && outs[1].GenerationFailed? && outs[2].Completed?
    ensures PromptsCreated(outs) == 3 && Completions(outs) == 2
  {
    var one, two := outs[..1], outs[..2];
    assert one[..0] == [] && one[0] == outs[0];
    assert PromptsCreated(one) == 1 && Completions(one) == 1;
    assert two[..1] == one && two[1] == outs[1];
    assert PromptsCreated(two) == 2 && Completions(two) == 1;
    assert outs[..2] == two && outs[2].Completed?;
  }

  /** Three specs that all render, whose middle generation fails: three prompts, two
      responses and two evaluations are added, and the run still returns its experiment. */
  lemma MiddleGenerationFails(st: Database.Store, cfg: Config, startedAt: string, ctx: Collaborators)
    requires |cfg.prompts| == 3
    requires forall i :: 0 <= i < 3 ==> RenderSpec(ctx.templates, cfg.prompts[i]).Some?
    requires Generate(ctx, cfg.prompts[0], RenderSpec(ctx.templates, cfg.prompts[0]).value, 0).Ok?
    requires Generate(ctx, cfg.prompts[1], RenderSpec(ctx.templates, cfg.prompts[1]).value, 1).Err?
    requires Generate(ctx, cfg.prompts[2], RenderSpec(ctx.templates, cfg.prompts[2]).value, 2).Ok?
    ensures var r := Run(st, cfg, startedAt, ctx);
      && r.outcomes[0].Completed? && r.outcomes[1].GenerationFailed? && r.outcomes[2].Completed?
      && |r.store.prompts| == |st.prompts| + 3
      && |r.store.responses| == |st.responses| + 2
      && |r.store.evaluations| == |st.evaluations| + 2
  {
    var (st1, experimentId) := Database.CreateExperiment(st, ExperimentName(cfg, startedAt), cfg);
    var outs := ProcessAll(st1, experimentId, cfg.prompts, ctx).1;
    assert Run(st, cfg, startedAt, ctx).outcomes == outs;
    OutcomeAt(st1, experimentId, cfg.prompts, ctx, 0);
    OutcomeAt(st1, experimentId, cfg.prompts, ctx, 1);
    OutcomeAt(st1, experimentId, cfg.prompts, ctx, 2);
    CountsOfThree(outs);
  }
}
