/** The experiment configuration as an explicit schema: the experiment name, the model and the
    ordered prompt specifications. An entry missing from the YAML document is `None` (or, for
    the variables and the prompt list, empty, which is what the runner substitutes). An entry
    present with a null value is read as missing too; the runner itself passes such a null on
    unchanged. */
module ExperimentConfig {
  import opened Wrappers

  /** One unit of work: a template name, the values for its fields and optional overrides of
      the generation options. */
  datatype PromptSpec = PromptSpec(
    template: string,
    variables: map<string, string>,
    temperature: Option<real>,
    maxTokens: Option<int>)

  datatype Config = Config(
    experimentName: Option<string>,
    model: Option<string>,
    prompts: seq<PromptSpec>)
}
