/** The generation client: construction from the environment, the per-call option defaulting,
    the shape of one generation and the batch loop that turns failures into placeholders.
    The remote chat-completion call is an oracle supplied by the caller. */
module LlmClient {
  import opened Wrappers

  const FallbackModel := "gpt-3.5-turbo"
  const FallbackTemperature: real := 0.7
  const FallbackMaxTokens: int := 500

  /** Python's `x or y` on an optional value: `x` unless it is absent or falsy (`falsy` is
      the type's falsy value: `""`, `0`, `0.0`). */
  function Or<T(==)>(x: Option<T>, falsy: T, y: T): (r: T)
    ensures x.Some? && x.value != falsy ==> r == x.value
    ensures x.None? || x.value == falsy ==> r == y
  {
    if x.Some? && x.value != falsy then x.value else y
  }

  /** The environment variables the client reads. The numeric ones are given already
      parsed; an unparsable value (which raises in the source) is not modelled. */
  datatype Environment = Environment(
    apiKey: Option<string>,
    defaultModel: Option<string>,
    defaultTemperature: Option<real>,
    defaultMaxTokens: Option<int>)

  /** A constructed client: the model it always reports and its default options. */
  datatype Client = Client(model: string, temperature: real, maxTokens: int)

  /** `LLMClient(model)`: refuses to start without a non-empty API key; the model argument
      wins when truthy, otherwise `DEFAULT_MODEL` (even when set to the empty string),
      otherwise the fallback; the options come from the environment or the fallbacks. */
  function NewClient(model: Option<string>, env: Environment): (r: Option<Client>)
    ensures r.None? <==> env.apiKey.None? || env.apiKey.value == ""
    ensures r.Some? && model.Some? && model.value != "" ==> r.value.model == model.value
    ensures r.Some? && (model.None? || model.value == "") && env.defaultModel.None? ==>
      r.value.model == FallbackModel
    ensures r.Some? && (model.None? || model.value == "") && env.defaultModel.Some? ==>
      r.value.model == env.defaultModel.value
    ensures r.Some? && env.defaultTemperature.None? ==> r.value.temperature == FallbackTemperature
    ensures r.Some? && env.defaultTemperature.Some? ==> r.value.temperature == env.defaultTemperature.value
    ensures r.Some? && env.defaultMaxTokens.None? ==> r.value.maxTokens == FallbackMaxTokens
    ensures r.Some? && env.defaultMaxTokens.Some? ==> r.value.maxTokens == env.defaultMaxTokens.value
  {
    if Or(env.apiKey, "", "") == "" then None
    else
      Some(Client(
        Or(model, "", env.defaultModel.GetOr(FallbackModel)),
        env.defaultTemperature.GetOr(FallbackTemperature),
        env.defaultMaxTokens.GetOr(FallbackMaxTokens)))
  }

  /** The arguments of one chat-completion call: a single user message and the options. */
  datatype Request = Request(model: string, prompt: string, temperature: real, maxTokens: int)

  /** The request `generate_response` sends: a per-call option overrides the client's
      default only when it is truthy, so an explicit `0` or `0.0` falls back too. */
  function BuildRequest(client: Client, prompt: string, temperature: Option<real>, maxTokens: Option<int>): (req: Request)
    ensures req.model == client.model && req.prompt == prompt
    ensures req.temperature == client.temperature || Some(req.temperature) == temperature
    ensures req.maxTokens == client.maxTokens || Some(req.maxTokens) == maxTokens
    ensures temperature.Some? && temperature.value != 0.0 ==> req.temperature == temperature.value
    ensures maxTokens.Some? && maxTokens.value != 0 ==> req.maxTokens == maxTokens.value
  {
    Request(client.model, prompt, Or(temperature, 0.0, client.temperature), Or(maxTokens, 0, client.maxTokens))
  }

  /** An explicit zero is not an override. */
  lemma ZeroOptionsFallBack(client: Client, prompt: string)
    ensures BuildRequest(client, prompt, Some(0.0), Some(0)) == BuildRequest(client, prompt, None, None)
    ensures BuildRequest(client, prompt, None, None).temperature == client.temperature
    ensures BuildRequest(client, prompt, None, None).maxTokens == client.maxTokens
  {
  }

  /** What the remote call yields: the first choice's text, the reported token total and the
      measured latency, or the error it raised. */
  datatype Reply = Completion(text: string, totalTokens: int, elapsed: real) | Failure(message: string)

  /** The remote service: the reply to the call with the given position in a run. */
  type Oracle = (nat, Request) -> Reply

  /** The record a generation produces. */
  datatype Generation = Generation(responseText: string, tokensUsed: int, responseTime: real, model: string)

  /** `generate_response`: the call's reply as a generation, reported under the client's
      model whatever the service says; a failure is raised again. */
  function GenerateResponse(client: Client, prompt: string, temperature: Option<real>, maxTokens: Option<int>,
                            oracle: Oracle, call: nat): (r: Result<Generation, string>)
    ensures var reply := oracle(call, BuildRequest(client, prompt, temperature, maxTokens));
      && (r.Ok? <==> reply.Completion?)
      && (r.Ok? ==> r.value.model == client.model && r.value.responseText == reply.text
                    && r.value.tokensUsed == reply.totalTokens && r.value.responseTime == reply.elapsed)
      && (r.Err? ==> r.error == reply.message)
  {
    match oracle(call, BuildRequest(client, prompt, temperature, maxTokens))
    case Completion(text, tokens, elapsed) => Ok(Generation(text, tokens, elapsed, client.model))
    case Failure(message) => Err(message)
  }

  /** The placeholder `batch_generate` records for a failed prompt. */
  function ErrorPlaceholder(client: Client, message: string): (g: Generation)
    ensures g.tokensUsed == 0 && g.responseTime == 0.0 && g.model == client.model
    ensures |g.responseText| == 7 + |message|
    ensures g.responseText[..7] == "ERROR: " && g.responseText[7..] == message
  {
    Generation("ERROR: " + message, 0, 0.0, client.model)
  }

  /** One entry of a batch: the generation, or the placeholder when it failed. */
  function BatchItem(r: Result<Generation, string>, client: Client): Generation {
    match r
    case Ok(g) => g
    case Err(message) => ErrorPlaceholder(client, message)
  }

  /** `batch_generate`: one record per prompt, in order; a failure is recorded in place and
      does not stop or affect the other prompts. The `i`-th prompt is call `i`. */
  method BatchGenerate(client: Client, prompts: seq<string>, temperature: Option<real>, maxTokens: Option<int>,
                       oracle: Oracle) returns (results: seq<Generation>)
    ensures |results| == |prompts|
    ensures forall i :: 0 <= i < |prompts| ==>
      results[i] == BatchItem(GenerateResponse(client, prompts[i], temperature, maxTokens, oracle, i), client)
    ensures forall i :: 0 <= i < |prompts| ==> results[i].model == client.model
  {
    results := [];
    var i := 0;
    while i < |prompts|
      invariant 0 <= i <= |prompts|
      invariant |results| == i
      invariant forall j :: 0 <= j < i ==>
        results[j] == BatchItem(GenerateResponse(client, prompts[j], temperature, maxTokens, oracle, j), client)
      invariant forall j :: 0 <= j < i ==> results[j].model == client.model
    {
      var item := BatchItem(GenerateResponse(client, prompts[i], temperature, maxTokens, oracle, i), client);
      results := results + [item];
      i := i + 1;
    }
  }
}
