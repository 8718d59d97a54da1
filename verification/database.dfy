/** The result store, in memory: four append-only tables with `AUTOINCREMENT` ids and creation
    stamps, the create operations, and the three read queries with their join, ordering and
    aggregation semantics. */
module Database {
  import opened Wrappers
  import opened Text
  import Metrics
  import opened ExperimentConfig

  // ---------------------------------------------------------------- rows and tables

  /** A stored row: its id, its creation stamp and its columns. */
  datatype Row<T> = Row(id: nat, createdAt: nat, val: T)

  type Table<T> = seq<Row<T>>

  datatype ExperimentData = ExperimentData(name: string, config: Config)

  /** A prompt row; `variables` is `NULL` when none (or an empty mapping) were given. */
  datatype PromptData = PromptData(
    experimentId: nat,
    templateType: string,
    promptText: string,
    variables: Option<map<string, string>>)

  datatype ResponseData = ResponseData(
    promptId: nat,
    responseText: string,
    model: string,
    tokensUsed: int,
    responseTime: real)

  /** The six nullable score columns. */
  datatype Scores = Scores(
    relevance: Option<real>,
    accuracy: Option<real>,
    completeness: Option<real>,
    consistency: Option<real>,
    efficiency: Option<real>,
    bias: Option<real>)

  datatype EvaluationData = EvaluationData(responseId: nat, scores: Scores, notes: string)

  /** The database: the four tables and the clock that stamps the next insert. */
  datatype Store = Store(
    experiments: Table<ExperimentData>,
    prompts: Table<PromptData>,
    responses: Table<ResponseData>,
    evaluations: Table<EvaluationData>,
    clock: nat)

  const Empty: Store := Store([], [], [], [], 0)

  /** The column of a dimension. */
  function Score(s: Scores, d: Metrics.Dimension): Option<real> {
    match d
    case Relevance => s.relevance
    case Accuracy => s.accuracy
    case Completeness => s.completeness
    case Consistency => s.consistency
    case Efficiency => s.efficiency
    case Bias => s.bias
  }

  /** The score row whose columns are given dimension by dimension. */
  function ScoresBy(f: Metrics.Dimension -> Option<real>): (s: Scores)
    ensures forall d :: Score(s, d) == f(d)
  {
    Scores(f(Metrics.Relevance), f(Metrics.Accuracy), f(Metrics.Completeness),
           f(Metrics.Consistency), f(Metrics.Efficiency), f(Metrics.Bias))
  }

  const NoScores: Scores := ScoresBy(d => None)

  /** `dict.get`. */
  function Get(m: Metrics.ScoreMap, k: string): (r: Option<real>)
    ensures r.Some? <==> k in m
    ensures r.Some? ==> r.value == m[k]
  {
    if k in m then Some(m[k]) else None
  }

  // ---------------------------------------------------------------- invariants

  predicate HasId<T>(t: Table<T>, id: nat) {
    exists i :: 0 <= i < |t| && t[i].id == id
  }

  /** Ids are positive and strictly increasing in insertion order, and so are the creation
      stamps, which all lie before the clock. */
  predicate Ordered<T>(t: Table<T>, clock: nat) {
    (forall i, j :: 0 <= i < j < |t| ==> t[i].id < t[j].id && t[i].createdAt < t[j].createdAt)
    && (forall i :: 0 <= i < |t| ==> 0 < t[i].id && t[i].createdAt < clock)
  }

  predicate Valid(st: Store) {
    Ordered(st.experiments, st.clock) && Ordered(st.prompts, st.clock)
    && Ordered(st.responses, st.clock) && Ordered(st.evaluations, st.clock)
  }

  /** Every reference names an existing row. The schema declares the foreign keys but the
      connection does not enforce them, so this is a property of how the tables are used. */
  predicate Linked(st: Store) {
    (forall i :: 0 <= i < |st.prompts| ==> HasId(st.experiments, st.prompts[i].val.experimentId))
    && (forall i :: 0 <= i < |st.responses| ==> HasId(st.prompts, st.responses[i].val.promptId))
    && (forall i :: 0 <= i < |st.evaluations| ==> HasId(st.responses, st.evaluations[i].val.responseId))
  }

  predicate InUnit(x: Option<real>) {
    x.Some? ==> 0.0 <= x.value <= 1.0
  }

  predicate ScoresInUnit(s: Scores) {
    forall d :: InUnit(Score(s, d))
  }

  /** Every stored score lies in [0, 1]. */
  predicate ScoresInRange(st: Store) {
    forall i :: 0 <= i < |st.evaluations| ==> ScoresInUnit(st.evaluations[i].val.scores)
  }

  // ---------------------------------------------------------------- inserts

  function MaxId<T>(t: Table<T>): (m: nat)
    ensures forall i :: 0 <= i < |t| ==> t[i].id <= m
  {
    if |t| == 0 then 0
    else
      var m := MaxId(t[..|t| - 1]);
      if t[|t| - 1].id > m then t[|t| - 1].id else m
  }

  /** Appends a row stamped with the clock under the next `AUTOINCREMENT` id, which is
      larger than every id in the table and so names no existing row. */
  function Insert<T>(t: Table<T>, clock: nat, v: T): (r: (Table<T>, nat))
    ensures r.0 == t + [Row(r.1, clock, v)]
    ensures r.1 > 0 && forall i :: 0 <= i < |t| ==> t[i].id < r.1
    ensures !HasId(t, r.1) && HasId(r.0, r.1)
    ensures Ordered(t, clock) ==> Ordered(r.0, clock + 1)
  {
    var id := MaxId(t) + 1;
    assert (t + [Row(id, clock, v)])[|t|].id == id;
    (t + [Row(id, clock, v)], id)
  }

  lemma HasIdExtends<T>(t: Table<T>, row: Row<T>, id: nat)
    requires HasId(t, id)
    ensures HasId(t + [row], id)
  {
    var i :| 0 <= i < |t| && t[i].id == id;
    assert (t + [row])[i] == t[i];
  }

  /** `create_experiment`: a new experiment row; the other tables are untouched. */
  function CreateExperiment(st: Store, name: string, config: Config): (r: (Store, nat))
    ensures r.0.experiments == st.experiments + [Row(r.1, st.clock, ExperimentData(name, config))]
    ensures !HasId(st.experiments, r.1)
    ensures r.0.prompts == st.prompts && r.0.responses == st.responses
      && r.0.evaluations == st.evaluations && r.0.clock == st.clock + 1
    ensures Valid(st) ==> Valid(r.0)
    ensures Linked(st) ==> Linked(r.0)
  {
    var (t, id) := Insert(st.experiments, st.clock, ExperimentData(name, config));
    var st' := st.(experiments := t, clock := st.clock + 1);
    assert Linked(st) ==> Linked(st') by {
      if Linked(st) {
        forall i | 0 <= i < |st.prompts|
          ensures HasId(t, st.prompts[i].val.experimentId)
        {
          HasIdExtends(st.experiments, Row(id, st.clock, ExperimentData(name, config)), st.prompts[i].val.experimentId);
        }
      }
    }
    (st', id)
  }

  /** The stored form of the variables: `NULL` unless a non-empty mapping was given. */
  function StoredVariables(variables: Option<map<string, string>>): (r: Option<map<string, string>>)
    ensures r.None? <==> variables.None? || variables.value == map[]
    ensures r.Some? ==> r == variables
  {
    if variables.Some? && variables.value != map[] then variables else None
  }

  /** `create_prompt`: a new prompt row; the other tables are untouched. */
  function CreatePrompt(st: Store, experimentId: nat, templateType: string, promptText: string,
                        variables: Option<map<string, string>>): (r: (Store, nat))
    ensures r.0.prompts == st.prompts
      + [Row(r.1, st.clock, PromptData(experimentId, templateType, promptText, StoredVariables(variables)))]
    ensures !HasId(st.prompts, r.1)
    ensures forall i :: 0 <= i < |st.prompts| ==> st.prompts[i].id < r.1
    ensures r.0.experiments == st.experiments && r.0.responses == st.responses
      && r.0.evaluations == st.evaluations && r.0.clock == st.clock + 1
    ensures Valid(st) ==> Valid(r.0)
    ensures Linked(st) && HasId(st.experiments, experimentId) ==> Linked(r.0)
  {
    var row := PromptData(experimentId, templateType, promptText, StoredVariables(variables));
    var (t, id) := Insert(st.prompts, st.clock, row);
    var st' := st.(prompts := t, clock := st.clock + 1);
    assert Linked(st) ==> forall i :: 0 <= i < |st.responses| ==> HasId(t, st.responses[i].val.promptId) by {
      if Linked(st) {
        forall i | 0 <= i < |st.responses|
          ensures HasId(t, st.responses[i].val.promptId)
        {
          HasIdExtends(st.prompts, Row(id, st.clock, row), st.responses[i].val.promptId);
        }
      }
    }
    assert forall i :: 0 <= i < |st.prompts| ==> t[i] == st.prompts[i];
    (st', id)
  }

  /** `create_response`: a new response row; the other tables are untouched. */
  function CreateResponse(st: Store, promptId: nat, responseText: string, model: string,
                          tokensUsed: int, responseTime: real): (r: (Store, nat))
    ensures r.0.responses == st.responses
      + [Row(r.1, st.clock, ResponseData(promptId, responseText, model, tokensUsed, responseTime))]
    ensures !HasId(st.responses, r.1)
    ensures r.0.experiments == st.experiments && r.0.prompts == st.prompts
      && r.0.evaluations == st.evaluations && r.0.clock == st.clock + 1
    ensures Valid(st) ==> Valid(r.0)
    ensures Linked(st) && HasId(st.prompts, promptId) ==> Linked(r.0)
  {
    var row := ResponseData(promptId, responseText, model, tokensUsed, responseTime);
    var (t, id) := Insert(st.responses, st.clock, row);
    var st' := st.(responses := t, clock := st.clock + 1);
    assert Linked(st) ==> forall i :: 0 <= i < |st.evaluations| ==> HasId(t, st.evaluations[i].val.responseId) by {
      if Linked(st) {
        forall i | 0 <= i < |st.evaluations|
          ensures HasId(t, st.evaluations[i].val.responseId)
        {
          HasIdExtends(st.responses, Row(id, st.clock, row), st.evaluations[i].val.responseId);
        }
      }
    }
    assert forall i :: 0 <= i < |st.responses| ==> t[i] == st.responses[i];
    (st', id)
  }

  /** The stored scores: each column is the map's value under the dimension's key, or
      `NULL` when the key is missing. */
  function ScoresFrom(scores: Metrics.ScoreMap): (s: Scores)
    ensures forall d :: Score(s, d) == Get(scores, Metrics.Key(d))
  {
    ScoresBy(d => Get(scores, Metrics.Key(d)))
  }

  /** `create_evaluation`: a new evaluation row; the other tables are untouched. */
  function CreateEvaluation(st: Store, responseId: nat, scores: Metrics.ScoreMap, notes: string): (r: (Store, nat))
    ensures r.0.evaluations == st.evaluations
      + [Row(r.1, st.clock, EvaluationData(responseId, ScoresFrom(scores), notes))]
    ensures !HasId(st.evaluations, r.1)
    ensures r.0.experiments == st.experiments && r.0.prompts == st.prompts
      && r.0.responses == st.responses && r.0.clock == st.clock + 1
    ensures Valid(st) ==> Valid(r.0)
    ensures Linked(st) && HasId(st.responses, responseId) ==> Linked(r.0)
    ensures ScoresInRange(st) && (forall k :: k in scores ==> 0.0 <= scores[k] <= 1.0) ==> ScoresInRange(r.0)
  {
    var row := EvaluationData(responseId, ScoresFrom(scores), notes);
    var (t, id) := Insert(st.evaluations, st.clock, row);
    AppendEvaluation(st, Row(id, st.clock, row));
    ScoresFromInUnit(scores);
    (st.(evaluations := t, clock := st.clock + 1), id)
  }

  /** Appending an evaluation keeps the links and the score range it does not break. */
  lemma AppendEvaluation(st: Store, row: Row<EvaluationData>)
    ensures var st' := st.(evaluations := st.evaluations + [row], clock := st.clock + 1);
      && (Linked(st) && HasId(st.responses, row.val.responseId) ==> Linked(st'))
      && (ScoresInRange(st) && ScoresInUnit(row.val.scores) ==> ScoresInRange(st'))
  {
    var t := st.evaluations + [row];
    assert forall i :: 0 <= i < |st.evaluations| ==> t[i] == st.evaluations[i];
    assert t[|st.evaluations|] == row;
  }

  /** Scores taken from a map of values in [0, 1] lie in [0, 1]. */
  lemma ScoresFromInUnit(scores: Metrics.ScoreMap)
    ensures (forall k :: k in scores ==> 0.0 <= scores[k] <= 1.0) ==> ScoresInUnit(ScoresFrom(scores))
  {
    if forall k :: k in scores ==> 0.0 <= scores[k] <= 1.0 {
      forall d: Metrics.Dimension
        ensures InUnit(Score(ScoresFrom(scores), d))
      {
        assert Score(ScoresFrom(scores), d) == Get(scores, Metrics.Key(d));
      }
    }
  }

  // ---------------------------------------------------------------- the join

  /** The scores of the evaluations of one response, in table order. */
  function EvaluationsOf(evs: Table<EvaluationData>, responseId: nat): (r: seq<Scores>)
    ensures forall s :: s in r <==> exists e :: e in evs && e.val.responseId == responseId && e.val.scores == s
  {
    if |evs| == 0 then []
    else
      var rest := EvaluationsOf(evs[1..], responseId);
      assert forall e :: e in evs <==> e == evs[0] || e in evs[1..];
      (if evs[0].val.responseId == responseId then [evs[0].val.scores] else []) + rest
  }

  /** One row of `prompts p JOIN responses r LEFT JOIN evaluations ev`. */
  datatype JoinRow = JoinRow(prompt: Row<PromptData>, response: Row<ResponseData>, scores: Scores)

  /** One row per evaluation. */
  function Pair(p: Row<PromptData>, r: Row<ResponseData>, evs: seq<Scores>): (js: seq<JoinRow>)
    ensures |js| == |evs| && forall k :: 0 <= k < |evs| ==> js[k] == JoinRow(p, r, evs[k])
    ensures forall x :: x in js <==> (x.prompt == p && x.response == r && x.scores in evs)
  {
    if |evs| == 0 then []
    else
      assert forall s :: s in evs <==> s == evs[0] || s in evs[1..];
      [JoinRow(p, r, evs[0])] + Pair(p, r, evs[1..])
  }

  /** The left join of one prompt-response pair with the response's evaluations: one row per
      evaluation, or a single row with `NULL` scores when there is none. */
  function LeftJoin(p: Row<PromptData>, r: Row<ResponseData>, evs: seq<Scores>): (js: seq<JoinRow>)
    ensures |js| == Fanout(evs)
    ensures forall x :: x in js <==>
      (x.prompt == p && x.response == r && (x.scores in evs || (evs == [] && x.scores == NoScores)))
  {
    if |evs| == 0 then [JoinRow(p, r, NoScores)] else Pair(p, r, evs)
  }

  /** How many rows a left join yields for a response with these evaluations. */
  function Fanout(evs: seq<Scores>): nat {
    if |evs| == 0 then 1 else |evs|
  }

  /** The rows of one response, over the prompts with the id it references. */
  function JoinPrompts(ps: Table<PromptData>, r: Row<ResponseData>, evs: seq<Scores>): (js: seq<JoinRow>)
    ensures forall x :: x in js <==>
      (x.prompt in ps && x.prompt.id == r.val.promptId && x.response == r
       && (x.scores in evs || (evs == [] && x.scores == NoScores)))
  {
    if |ps| == 0 then []
    else
      var here := if ps[0].id == r.val.promptId then LeftJoin(ps[0], r, evs) else [];
      var rest := JoinPrompts(ps[1..], r, evs);
      assert forall p :: p in ps <==> p == ps[0] || p in ps[1..];
      here + rest
  }

  /** The scores a joined row may carry for a response: one of its evaluations, or `NULL`s
      when it has none. */
  predicate ScoresOf(evs: Table<EvaluationData>, r: Row<ResponseData>, s: Scores) {
    var matching := EvaluationsOf(evs, r.id);
    s in matching || (matching == [] && s == NoScores)
  }

  /** The relational definition of a joined row: the response's prompt and admissible
      scores. */
  predicate Joined(st: Store, x: JoinRow) {
    x.prompt in st.prompts && x.prompt.id == x.response.val.promptId
    && ScoresOf(st.evaluations, x.response, x.scores)
  }

  /** The rows one response contributes. */
  function ResponseJoin(st: Store, r: Row<ResponseData>): (js: seq<JoinRow>)
    ensures forall x :: x in js <==> x.response == r && Joined(st, x)
  {
    JoinPrompts(st.prompts, r, EvaluationsOf(st.evaluations, r.id))
  }

  /** The join over the given responses, response by response in table order. Its rows are
      exactly the triples the relational definition admits. */
  function Join(st: Store, rs: Table<ResponseData>): (js: seq<JoinRow>)
    ensures forall x :: x in js <==> x.response in rs && Joined(st, x)
  {
    if |rs| == 0 then []
    else
      assert forall r :: r in rs <==> r == rs[0] || r in rs[1..];
      ResponseJoin(st, rs[0]) + Join(st, rs[1..])
  }

  /** The id column of a table. */
  function Ids<T>(t: Table<T>): (ids: seq<nat>)
    ensures |ids| == |t| && forall i :: 0 <= i < |t| ==> ids[i] == t[i].id
  {
    seq(|t|, i requires 0 <= i < |t| => t[i].id)
  }

  /** The `response_id` column of the evaluations. */
  function ResponseIds(evs: Table<EvaluationData>): (ids: seq<nat>)
    ensures |ids| == |evs| && forall i :: 0 <= i < |evs| ==> ids[i] == evs[i].val.responseId
  {
    seq(|evs|, i requires 0 <= i < |evs| => evs[i].val.responseId)
  }

  /** A response has one entry per evaluation that references it. */
  lemma {:induction false} EvaluationsOfCount(evs: Table<EvaluationData>, responseId: nat)
    ensures |EvaluationsOf(evs, responseId)| == multiset(ResponseIds(evs))[responseId]
  {
    if |evs| > 0 {
      EvaluationsOfCount(evs[1..], responseId);
      assert ResponseIds(evs) == [evs[0].val.responseId] + ResponseIds(evs[1..]);
    }
  }

  /** Each prompt with the referenced id contributes one left join. */
  lemma {:induction false} JoinPromptsCount(ps: Table<PromptData>, r: Row<ResponseData>, evs: seq<Scores>)
    ensures |JoinPrompts(ps, r, evs)| == multiset(Ids(ps))[r.val.promptId] * Fanout(evs)
  {
    if |ps| > 0 {
      var id, f := r.val.promptId, Fanout(evs);
      var m := multiset(Ids(ps[1..]))[id];
      var n := |JoinPrompts(ps[1..], r, evs)|;
      JoinPromptsCount(ps[1..], r, evs);
      assert n == m * f;
      IdCountStep(ps, id);
      JoinPromptsStep(ps, r, evs);
      if ps[0].id == id {
        MulSucc(m, f);
        assert |JoinPrompts(ps, r, evs)| == f + n;
        assert multiset(Ids(ps))[id] == m + 1;
      } else {
        assert |JoinPrompts(ps, r, evs)| == n;
        assert multiset(Ids(ps))[id] == m;
      }
    }
  }

  lemma JoinPromptsStep(ps: Table<PromptData>, r: Row<ResponseData>, evs: seq<Scores>)
    requires |ps| > 0
    ensures |JoinPrompts(ps, r, evs)| ==
      (if ps[0].id == r.val.promptId then Fanout(evs) else 0) + |JoinPrompts(ps[1..], r, evs)|
  {
  }

  lemma IdCountStep<T>(t: Table<T>, id: nat)
    requires |t| > 0
    ensures multiset(Ids(t))[id] == (if t[0].id == id then 1 else 0) + multiset(Ids(t[1..]))[id]
  {
    assert Ids(t) == [t[0].id] + Ids(t[1..]);
  }

  lemma MulSucc(m: nat, f: nat)
    ensures (m + 1) * f == m * f + f
  {
  }

  /** A response contributes, for every prompt row with its prompt id, one row per
      evaluation that references it, or one row when none does. */
  lemma ResponseJoinCount(st: Store, r: Row<ResponseData>)
    ensures |ResponseJoin(st, r)| ==
      multiset(Ids(st.prompts))[r.val.promptId] * Fanout(EvaluationsOf(st.evaluations, r.id))
    ensures |EvaluationsOf(st.evaluations, r.id)| == multiset(ResponseIds(st.evaluations))[r.id]
  {
    JoinPromptsCount(st.prompts, r, EvaluationsOf(st.evaluations, r.id));
    EvaluationsOfCount(st.evaluations, r.id);
  }

  /** In a consistent store whose response names an existing prompt, the response has one
      joined row per evaluation, or a single row when it has none. */
  lemma ResponseJoinLinked(st: Store, r: Row<ResponseData>)
    requires Valid(st) && HasId(st.prompts, r.val.promptId)
    ensures |ResponseJoin(st, r)| ==
      var n := multiset(ResponseIds(st.evaluations))[r.id]; if n == 0 then 1 else n
  {
    ResponseJoinCount(st, r);
    UniqueId(st.prompts, st.clock, r.val.promptId);
  }

  /** Ids increase along an ordered table, so an id that occurs occurs once. */
  lemma UniqueId<T>(t: Table<T>, clock: nat, id: nat)
    requires Ordered(t, clock) && HasId(t, id)
    ensures multiset(Ids(t))[id] == 1
  {
    var i :| 0 <= i < |t| && t[i].id == id;
    IdOnlyAt(t, clock, i);
    CountOnce(Ids(t), i);
  }

  /** A value that occurs neither before nor after position `i` occurs once. */
  lemma CountOnce(xs: seq<nat>, i: nat)
    requires i < |xs| && xs[i] !in xs[..i] && xs[i] !in xs[i + 1..]
    ensures multiset(xs)[xs[i]] == 1
  {
    assert xs == xs[..i] + [xs[i]] + xs[i + 1..];
  }

  /** The id of row `i` occurs neither before nor after it. */
  lemma IdOnlyAt<T>(t: Table<T>, clock: nat, i: nat)
    requires Ordered(t, clock) && i < |t|
    ensures t[i].id !in Ids(t)[..i] && t[i].id !in Ids(t)[i + 1..]
  {
    var ids := Ids(t);
    forall k | 0 <= k < i
      ensures ids[..i][k] != t[i].id
    {
      assert t[k].id < t[i].id;
    }
    forall j | i < j < |t|
      ensures ids[j] != t[i].id
    {
      assert t[i].id < t[j].id;
    }
    var after := ids[i + 1..];
    assert forall k :: 0 <= k < |after| ==> after[k] == ids[i + 1 + k];
  }

  /** The join of consecutive response lists is the concatenation of their joins; a single
      response contributes its own rows. */
  lemma {:induction false} JoinAppend(st: Store, a: Table<ResponseData>, b: Table<ResponseData>)
    ensures Join(st, a + b) == Join(st, a) + Join(st, b)
    ensures |a| == 1 ==> Join(st, a) == ResponseJoin(st, a[0])
  {
    if |a| == 0 {
      assert a + b == b;
    } else {
      assert (a + b)[1..] == a[1..] + b;
      JoinAppend(st, a[1..], b);
      assert |a| == 1 ==> a[1..] == [];
    }
  }

  predicate Increasing(rs: Table<ResponseData>) {
    forall i, j :: 0 <= i < j < |rs| ==> rs[i].createdAt < rs[j].createdAt
  }

  predicate InCreationOrder(js: seq<JoinRow>) {
    forall a, b :: 0 <= a < b < |js| ==> js[a].response.createdAt <= js[b].response.createdAt
  }

  lemma ConcatInOrder(head: seq<JoinRow>, tail: seq<JoinRow>, c: nat)
    requires forall x :: x in head ==> x.response.createdAt == c
    requires forall x :: x in tail ==> c < x.response.createdAt
    requires InCreationOrder(tail)
    ensures InCreationOrder(head + tail)
  {
    var js := head + tail;
    forall a, b | 0 <= a < b < |js|
      ensures js[a].response.createdAt <= js[b].response.createdAt
    {
      if b < |head| {
        assert js[a] in head && js[b] in head;
      } else if a < |head| {
        assert js[a] in head && js[b] == tail[b - |head|] && tail[b - |head|] in tail;
      } else {
        assert js[a] == tail[a - |head|] && js[b] == tail[b - |head|];
      }
    }
  }

  /** Responses in creation order give join rows in creation order. */
  lemma {:induction false} JoinInOrder(st: Store, rs: Table<ResponseData>)
    requires Increasing(rs)
    ensures InCreationOrder(Join(st, rs))
  {
    if |rs| > 0 {
      assert Increasing(rs[1..]) by {
        forall i, j | 0 <= i < j < |rs[1..]|
          ensures rs[1..][i].createdAt < rs[1..][j].createdAt
        {
          assert rs[1..][i] == rs[i + 1] && rs[1..][j] == rs[j + 1];
        }
      }
      JoinInOrder(st, rs[1..]);
      forall x | x in Join(st, rs[1..])
        ensures rs[0].createdAt < x.response.createdAt
      {
        var k :| 0 <= k < |rs[1..]| && rs[1..][k] == x.response;
        assert rs[1..][k] == rs[k + 1];
      }
      ConcatInOrder(ResponseJoin(st, rs[0]), Join(st, rs[1..]), rs[0].createdAt);
    }
  }

  // ---------------------------------------------------------------- experiment results

  /** One row of the experiment result query. */
  datatype ResultRow = ResultRow(
    experimentName: string,
    templateType: string,
    promptText: string,
    responseText: string,
    model: string,
    tokensUsed: int,
    responseTime: real,
    scores: Scores,
    createdAt: nat)

  function ToResult(e: Row<ExperimentData>, x: JoinRow): ResultRow {
    ResultRow(e.val.name, x.prompt.val.templateType, x.prompt.val.promptText,
              x.response.val.responseText, x.response.val.model, x.response.val.tokensUsed,
              x.response.val.responseTime, x.scores, x.response.createdAt)
  }

  /** The experiment row with the given id, the first one if there were several. */
  function FindExperiment(t: Table<ExperimentData>, id: nat): (r: Option<Row<ExperimentData>>)
    ensures r.Some? ==> r.value in t && r.value.id == id
    ensures r.None? <==> !HasId(t, id)
  {
    if |t| == 0 then None
    else if t[0].id == id then Some(t[0])
    else
      assert forall i :: 0 < i < |t| ==> t[i] == t[1..][i - 1];
      FindExperiment(t[1..], id)
  }

  /** The prompts of one experiment. */
  function PromptsOf(ps: Table<PromptData>, experimentId: nat): (r: Table<PromptData>)
    ensures forall p :: p in r <==> p in ps && p.val.experimentId == experimentId
  {
    if |ps| == 0 then []
    else
      assert forall p :: p in ps <==> p == ps[0] || p in ps[1..];
      (if ps[0].val.experimentId == experimentId then [ps[0]] else []) + PromptsOf(ps[1..], experimentId)
  }

  /** The join restricted to the prompts of one experiment. */
  function ExperimentJoin(st: Store, experimentId: nat): seq<JoinRow> {
    Join(st.(prompts := PromptsOf(st.prompts, experimentId)), st.responses)
  }

  function Reverse<T>(xs: seq<T>): (r: seq<T>)
    ensures |r| == |xs|
    ensures forall i :: 0 <= i < |xs| ==> r[i] == xs[|xs| - 1 - i]
  {
    seq(|xs|, i requires 0 <= i < |xs| => xs[|xs| - 1 - i])
  }

  /** `get_experiment_results`: the joined rows of the experiment, newest response first.
      An unknown experiment has no rows. */
  function GetExperimentResults(st: Store, experimentId: nat): (rows: seq<ResultRow>)
    ensures !HasId(st.experiments, experimentId) ==> rows == []
    ensures HasId(st.experiments, experimentId) ==> |rows| == |ExperimentJoin(st, experimentId)|
  {
    match FindExperiment(st.experiments, experimentId)
    case None => []
    case Some(e) => NewestFirst(e, ExperimentJoin(st, experimentId))
  }

  /** The joined rows as result rows, last joined row first. */
  function NewestFirst(e: Row<ExperimentData>, js: seq<JoinRow>): (rows: seq<ResultRow>)
    ensures |rows| == |js|
    ensures forall k :: 0 <= k < |js| ==> rows[k] == ToResult(e, js[|js| - 1 - k])
  {
    Reverse(seq(|js|, i requires 0 <= i < |js| => ToResult(e, js[i])))
  }

  /** Row `k` of the result is the `k`-th joined row from the end. */
  lemma ResultRowAt(st: Store, experimentId: nat, k: nat)
    requires k < |GetExperimentResults(st, experimentId)|
    ensures HasId(st.experiments, experimentId)
    ensures var js := ExperimentJoin(st, experimentId);
      GetExperimentResults(st, experimentId)[k]
        == ToResult(FindExperiment(st.experiments, experimentId).value, js[|js| - 1 - k])
  {
  }

  /** With responses in creation order (as in every valid store) the rows come newest
      response first. */
  lemma ResultsNewestFirst(st: Store, experimentId: nat)
    requires Valid(st)
    ensures var rows := GetExperimentResults(st, experimentId);
      forall a, b :: 0 <= a < b < |rows| ==> rows[a].createdAt >= rows[b].createdAt
  {
    var rows := GetExperimentResults(st, experimentId);
    var js := ExperimentJoin(st, experimentId);
    assert Increasing(st.responses);
    JoinInOrder(st.(prompts := PromptsOf(st.prompts, experimentId)), st.responses);
    forall a, b | 0 <= a < b < |rows|
      ensures rows[a].createdAt >= rows[b].createdAt
    {
      ResultRowAt(st, experimentId, a);
      ResultRowAt(st, experimentId, b);
    }
  }

  /** Every result row comes from a response to a prompt of the experiment, and carries its
      texts, its creation stamp and either one of its evaluations or `NULL` scores. */
  lemma ResultsSound(st: Store, experimentId: nat, k: nat)
    requires k < |GetExperimentResults(st, experimentId)|
    ensures var row := GetExperimentResults(st, experimentId)[k];
      exists r, p :: r in st.responses && p in st.prompts && p.id == r.val.promptId
        && p.val.experimentId == experimentId
        && row.promptText == p.val.promptText && row.templateType == p.val.templateType
        && row.responseText == r.val.responseText && row.createdAt == r.createdAt
        && ScoresOf(st.evaluations, r, row.scores)
  {
    var js := ExperimentJoin(st, experimentId);
    ResultRowAt(st, experimentId, k);
    ExperimentJoinSound(st, experimentId, js[|js| - 1 - k]);
  }

  /** A row of the experiment's join pairs one of its prompts with a response to it. */
  lemma ExperimentJoinSound(st: Store, experimentId: nat, x: JoinRow)
    requires x in ExperimentJoin(st, experimentId)
    ensures x.response in st.responses && x.prompt in st.prompts
    ensures x.prompt.id == x.response.val.promptId && x.prompt.val.experimentId == experimentId
    ensures ScoresOf(st.evaluations, x.response, x.scores)
  {
    assert Joined(st.(prompts := PromptsOf(st.prompts, experimentId)), x);
  }

  /** Every response to a prompt of the experiment appears, with each of its evaluations, or
      once with `NULL` scores when it has none. */
  lemma ResultsComplete(st: Store, experimentId: nat, r: Row<ResponseData>, p: Row<PromptData>)
    requires HasId(st.experiments, experimentId)
    requires r in st.responses && p in st.prompts && p.id == r.val.promptId
    requires p.val.experimentId == experimentId
    ensures var rows := GetExperimentResults(st, experimentId);
      var e := FindExperiment(st.experiments, experimentId).value;
      forall s :: ScoresOf(st.evaluations, r, s) ==> ToResult(e, JoinRow(p, r, s)) in rows
  {
    var e := FindExperiment(st.experiments, experimentId).value;
    var st2 := st.(prompts := PromptsOf(st.prompts, experimentId));
    var js := Join(st2, st.responses);
    var rows := NewestFirst(e, js);
    assert rows == GetExperimentResults(st, experimentId);
    assert p in st2.prompts;
    forall s | ScoresOf(st.evaluations, r, s)
      ensures ToResult(e, JoinRow(p, r, s)) in rows
    {
      assert Joined(st2, JoinRow(p, r, s));
      var i :| 0 <= i < |js| && js[i] == JoinRow(p, r, s);
      assert rows[|js| - 1 - i] == ToResult(e, js[i]);
    }
  }

  /** `get_all_experiments`: every experiment, newest first. */
  function GetAllExperiments(st: Store): (r: Table<ExperimentData>)
    ensures |r| == |st.experiments|
    ensures forall e :: e in r <==> e in st.experiments
    ensures Valid(st) ==> forall a, b :: 0 <= a < b < |r| ==> r[a].createdAt > r[b].createdAt
  {
    var r := Reverse(st.experiments);
    assert forall e :: e in st.experiments ==> e in r by {
      forall e | e in st.experiments
        ensures e in r
      {
        var i :| 0 <= i < |st.experiments| && st.experiments[i] == e;
        assert r[|r| - 1 - i] == e;
      }
    }
    r
  }

  // ---------------------------------------------------------------- averages

  /** The non-null values, in order. */
  function Present(xs: seq<Option<real>>): (vs: seq<real>)
    ensures |vs| <= |xs|
    ensures |vs| == 0 <==> forall i :: 0 <= i < |xs| ==> xs[i].None?
    ensures forall v :: v in vs ==> Some(v) in xs
  {
    if |xs| == 0 then []
    else
      assert forall i :: 0 < i < |xs| ==> xs[i] == xs[1..][i - 1];
      (if xs[0].Some? then [xs[0].value] else []) + Present(xs[1..])
  }

  /** Every non-null value is kept, and exactly the nulls are dropped. */
  lemma {:induction false} PresentKeeps(xs: seq<Option<real>>)
    ensures forall i :: 0 <= i < |xs| && xs[i].Some? ==> xs[i].value in Present(xs)
    ensures |Present(xs)| == |xs| - multiset(xs)[None]
  {
    if |xs| > 0 {
      PresentKeeps(xs[1..]);
      assert xs == [xs[0]] + xs[1..];
      assert forall i :: 0 < i < |xs| ==> xs[i] == xs[1..][i - 1];
    }
  }

  function Sum(vs: seq<real>): real {
    if |vs| == 0 then 0.0 else vs[0] + Sum(vs[1..])
  }

  /** SQL `AVG`: the mean of the non-null values, `NULL` when there are none. */
  function Average(xs: seq<Option<real>>): (r: Option<real>)
    ensures r.None? <==> forall i :: 0 <= i < |xs| ==> xs[i].None?
  {
    var vs := Present(xs);
    if |vs| == 0 then None else Some(Sum(vs) / |vs| as real)
  }

  lemma {:induction false} PresentAppend(a: seq<Option<real>>, b: seq<Option<real>>)
    ensures Present(a + b) == Present(a) + Present(b)
  {
    if |a| == 0 {
      assert a + b == b;
    } else {
      assert (a + b)[0] == a[0];
      assert (a + b)[1..] == a[1..] + b;
      PresentAppend(a[1..], b);
    }
  }

  /** A null anywhere among the values leaves the average as it was: nulls are skipped,
      not counted as zero. */
  lemma AverageSkipsNull(a: seq<Option<real>>, b: seq<Option<real>>)
    ensures Average(a + [None] + b) == Average(a + b)
  {
    var gap: seq<Option<real>> := [None];
    PresentAppend(a + gap, b);
    PresentAppend(a, gap);
    PresentAppend(a, b);
    assert Present(gap) == [] by {
      assert gap[1..] == [];
    }
    assert Present(a) + [] == Present(a);
  }

  lemma AverageNullExample()
    ensures Average([Some(1.0), None]) == Some(1.0)
  {
    AverageSkipsNull([Some(1.0)], []);
    assert [Some(1.0)] + [None] + [] == [Some(1.0), None];
    assert [Some(1.0)] + [] == [Some(1.0)];
    assert Present([Some(1.0)]) == [1.0] by {
      assert [Some(1.0)][1..] == [];
    }
  }

  lemma {:induction false} SumBounds(vs: seq<real>, lo: real, hi: real)
    requires forall v :: v in vs ==> lo <= v <= hi
    ensures lo * |vs| as real <= Sum(vs) <= hi * |vs| as real
  {
    if |vs| > 0 {
      assert vs[0] in vs;
      assert forall v :: v in vs[1..] ==> v in vs;
      SumBounds(vs[1..], lo, hi);
    }
  }

  lemma DivideBounds(s: real, n: real, lo: real, hi: real)
    requires n > 0.0 && lo * n <= s <= hi * n
    ensures lo <= s / n <= hi
  {
    assert s / n - lo == (s - lo * n) / n;
    assert hi - s / n == (hi * n - s) / n;
  }

  /** The average of values within bounds is within the same bounds. */
  lemma AverageBounds(xs: seq<Option<real>>, lo: real, hi: real)
    requires forall i :: 0 <= i < |xs| && xs[i].Some? ==> lo <= xs[i].value <= hi
    ensures Average(xs).Some? ==> lo <= Average(xs).value <= hi
  {
    var vs := Present(xs);
    if |vs| > 0 {
      forall v | v in vs
        ensures lo <= v <= hi
      {
        var i :| 0 <= i < |xs| && xs[i] == Some(v);
      }
      SumBounds(vs, lo, hi);
      DivideBounds(Sum(vs), |vs| as real, lo, hi);
    }
  }

  /** The sum of two lists one after the other is the sum of their sums. */
  lemma {:induction false} SumAppend(a: seq<real>, b: seq<real>)
    ensures Sum(a + b) == Sum(a) + Sum(b)
  {
    if |a| > 0 {
      assert (a + b)[0] == a[0];
      assert (a + b)[1..] == a[1..] + b;
      SumAppend(a[1..], b);
    } else {
      assert a + b == b;
    }
  }

  /** The average of one value is that value, and of one `NULL` is `NULL`. */
  lemma AverageOne(x: Option<real>)
    ensures Average([x]) == x
  {
    assert [x][1..] == [];
    assert Present([x]) == if x.Some? then [x.value] else [];
    if x.Some? {
      assert Sum([x.value]) == x.value + Sum([]);
    }
  }

  /** `AVG` is the mean: over a list `ab` made of `a` then `b`, the average times the number
      of non-null values is the sum of the two parts' sums. With `AverageTimesCount` on the
      parts this makes it the mean of their averages weighted by how many non-null values
      each has. */
  lemma AverageCombine(a: seq<Option<real>>, b: seq<Option<real>>, ab: seq<Option<real>>)
    requires ab == a + b
    requires |Present(a)| + |Present(b)| > 0
    ensures Average(ab).Some?
    ensures |Present(ab)| == |Present(a)| + |Present(b)|
    ensures Times(Average(ab).value, |Present(ab)|) == Sum(Present(a)) + Sum(Present(b))
  {
    PresentAppend(a, b);
    SumAppend(Present(a), Present(b));
    AverageTimesCount(ab);
  }

  /** `x` taken `n` times. */
  function Times(x: real, n: nat): real {
    x * n as real
  }

  /** The average times the number of non-null values is their sum. */
  lemma AverageTimesCount(xs: seq<Option<real>>)
    requires Average(xs).Some?
    ensures Times(Average(xs).value, |Present(xs)|) == Sum(Present(xs))
  {
    MeanTimesCount(Average(xs).value, Sum(Present(xs)), |Present(xs)|);
  }

  lemma MeanTimesCount(mean: real, total: real, n: nat)
    requires n > 0 && mean == total / n as real
    ensures Times(mean, n) == total
  {
  }

  /** The mean of 0.0 and 1.0 is 0.5: not the first value, the last, or the sum. */
  lemma AverageTwoExample()
    ensures Average([Some(0.0), Some(1.0)]) == Some(0.5)
  {
    var a, b := [Some(0.0)], [Some(1.0)];
    assert Present(a) == [0.0] by { assert a[1..] == []; }
    assert Present(b) == [1.0] by { assert b[1..] == []; }
    assert Sum([0.0]) == 0.0 + Sum([]) && Sum([1.0]) == 1.0 + Sum([]);
    AverageCombine(a, b, [Some(0.0), Some(1.0)]);
  }

  // ---------------------------------------------------------------- template comparison

  /** One row of the comparison: a template, its joined-row count and the averages. */
  datatype TemplateStats = TemplateStats(
    templateType: string,
    responseCount: nat,
    avgResponseTime: Option<real>,
    avgTokens: Option<real>,
    avgScores: Scores)

  /** The templates of the joined rows, each once, in order of first appearance. */
  function TemplatesOf(js: seq<JoinRow>): (ts: seq<string>)
    ensures Distinct(ts)
    ensures forall t :: t in ts <==> exists x :: x in js && x.prompt.val.templateType == t
  {
    if |js| == 0 then []
    else
      var init := js[..|js| - 1];
      var last := js[|js| - 1];
      var ts := TemplatesOf(init);
      assert forall x :: x in js <==> x in init || x == last;
      if last.prompt.val.templateType in ts then ts else ts + [last.prompt.val.templateType]
  }

  /** The joined rows of one template. */
  function Group(js: seq<JoinRow>, t: string): (g: seq<JoinRow>)
    ensures forall x :: x in g <==> x in js && x.prompt.val.templateType == t
  {
    if |js| == 0 then []
    else
      assert forall x :: x in js <==> x == js[0] || x in js[1..];
      (if js[0].prompt.val.templateType == t then [js[0]] else []) + Group(js[1..], t)
  }

  /** The group keeps every row of its template as often as it occurs, and no other row. */
  lemma {:induction false} GroupCount(js: seq<JoinRow>, t: string, x: JoinRow)
    ensures multiset(Group(js, t))[x] == if x.prompt.val.templateType == t then multiset(js)[x] else 0
  {
    if |js| > 0 {
      GroupCount(js[1..], t, x);
      assert js == [js[0]] + js[1..];
    }
  }

  function ScoreColumn(g: seq<JoinRow>, d: Metrics.Dimension): (c: seq<Option<real>>)
    ensures |c| == |g| && forall i :: 0 <= i < |g| ==> c[i] == Score(g[i].scores, d)
  {
    seq(|g|, i requires 0 <= i < |g| => Score(g[i].scores, d))
  }

  /** The aggregate row of one group: `COUNT(r.id)` and the `AVG` of each column. The
      response-time and token averages are `NULL` only for an empty group, and a score
      average is `NULL` exactly when every row's score in that column is. */
  function Summarize(t: string, g: seq<JoinRow>): (r: TemplateStats)
    ensures r.templateType == t && r.responseCount == |g|
    ensures r.avgResponseTime.None? <==> |g| == 0
    ensures r.avgTokens.None? <==> |g| == 0
    ensures forall d :: Score(r.avgScores, d).None? <==> forall k :: 0 <= k < |g| ==> Score(g[k].scores, d).None?
  {
    TemplateStats(
      t,
      |g|,
      Average(seq(|g|, i requires 0 <= i < |g| => Some(g[i].response.val.responseTime))),
      Average(seq(|g|, i requires 0 <= i < |g| => Some(g[i].response.val.tokensUsed as real))),
      ScoresBy(d => Average(ScoreColumn(g, d))))
  }

  /** A group of one joined row averages to that row's own values, column by column: the
      response time, the token count and each score. */
  lemma SummarizeOne(t: string, x: JoinRow)
    ensures var r := Summarize(t, [x]);
      && r.avgResponseTime == Some(x.response.val.responseTime)
      && r.avgTokens == Some(x.response.val.tokensUsed as real)
      && forall d :: Score(r.avgScores, d) == Score(x.scores, d)
  {
    var g := [x];
    var times := seq(|g|, i requires 0 <= i < |g| => Some(g[i].response.val.responseTime));
    var tokens := seq(|g|, i requires 0 <= i < |g| => Some(g[i].response.val.tokensUsed as real));
    assert times == [Some(x.response.val.responseTime)];
    assert tokens == [Some(x.response.val.tokensUsed as real)];
    AverageOne(Some(x.response.val.responseTime));
    AverageOne(Some(x.response.val.tokensUsed as real));
    forall d
      ensures Average(ScoreColumn(g, d)) == Score(x.scores, d)
    {
      assert ScoreColumn(g, d) == [Score(x.scores, d)];
      AverageOne(Score(x.scores, d));
    }
  }

  /** One aggregate row per listed template. */
  function Summaries(js: seq<JoinRow>, ts: seq<string>): (r: seq<TemplateStats>)
    ensures |r| == |ts|
    ensures forall i :: 0 <= i < |ts| ==> r[i] == Summarize(ts[i], Group(js, ts[i]))
    ensures forall i :: 0 <= i < |ts| ==> r[i].templateType == ts[i] && r[i].responseCount == |Group(js, ts[i])|
  {
    seq(|ts|, i requires 0 <= i < |ts| => Summarize(ts[i], Group(js, ts[i])))
  }

  /** `get_template_comparison`: one aggregate row per template that has joined rows, which
      counts those rows and averages their columns. The query fixes no order of the groups;
      they are listed in order of first appearance. */
  function GetTemplateComparison(st: Store): (r: seq<TemplateStats>)
    ensures forall i, j :: 0 <= i < j < |r| ==> r[i].templateType != r[j].templateType
    ensures forall x :: x in Join(st, st.responses) ==>
      exists i :: 0 <= i < |r| && r[i].templateType == x.prompt.val.templateType
    ensures forall i :: 0 <= i < |r| ==> r[i].responseCount >= 1
  {
    var js := Join(st, st.responses);
    GroupsNonEmpty(js);
    Summaries(js, TemplatesOf(js))
  }

  /** Every listed template has joined rows, and every joined row's template is listed. */
  lemma GroupsNonEmpty(js: seq<JoinRow>)
    ensures forall i :: 0 <= i < |TemplatesOf(js)| ==> |Group(js, TemplatesOf(js)[i])| >= 1
    ensures forall x :: x in js ==>
      exists i :: 0 <= i < |TemplatesOf(js)| && TemplatesOf(js)[i] == x.prompt.val.templateType
  {
    var ts := TemplatesOf(js);
    forall x | x in js
      ensures exists i :: 0 <= i < |ts| && ts[i] == x.prompt.val.templateType
    {
      assert x.prompt.val.templateType in ts;
    }
    forall i | 0 <= i < |ts|
      ensures |Group(js, ts[i])| >= 1
    {
      assert ts[i] in ts;
      var x :| x in js && x.prompt.val.templateType == ts[i];
      assert x in Group(js, ts[i]);
    }
  }

  /** Each aggregate row is the summary of a template that occurs in the join: its count is
      the number of joined rows of that template. */
  lemma ComparisonRows(st: Store, i: nat)
    requires i < |GetTemplateComparison(st)|
    ensures var row := GetTemplateComparison(st)[i];
      var g := Group(Join(st, st.responses), row.templateType);
      && (exists x :: x in Join(st, st.responses) && x.prompt.val.templateType == row.templateType)
      && row == Summarize(row.templateType, g)
      && row.responseCount == |g|
  {
    var js := Join(st, st.responses);
    var ts := TemplatesOf(js);
    assert ts[i] in ts;
  }

  /** The joined rows carry stored scores or `NULL`s, so they inherit the range. */
  lemma JoinScoresInUnit(st: Store, rs: Table<ResponseData>)
    requires ScoresInRange(st)
    ensures forall x :: x in Join(st, rs) ==> ScoresInUnit(x.scores)
  {
    forall x | x in Join(st, rs)
      ensures ScoresInUnit(x.scores)
    {
      var evs := EvaluationsOf(st.evaluations, x.response.id);
      if x.scores in evs {
        var e :| e in st.evaluations && e.val.responseId == x.response.id && e.val.scores == x.scores;
        var k :| 0 <= k < |st.evaluations| && st.evaluations[k] == e;
      }
    }
  }

  lemma GroupAverageInUnit(g: seq<JoinRow>, d: Metrics.Dimension)
    requires forall x :: x in g ==> ScoresInUnit(x.scores)
    ensures InUnit(Average(ScoreColumn(g, d)))
  {
    forall k | 0 <= k < |g|
      ensures InUnit(Score(g[k].scores, d))
    {
      assert g[k] in g;
    }
    AverageBounds(ScoreColumn(g, d), 0.0, 1.0);
  }

  /** With every stored score in [0, 1], every averaged score is in [0, 1] (or `NULL`). */
  lemma ComparisonScoresInRange(st: Store, i: nat, d: Metrics.Dimension)
    requires ScoresInRange(st)
    requires i < |GetTemplateComparison(st)|
    ensures InUnit(Score(GetTemplateComparison(st)[i].avgScores, d))
  {
    var js := Join(st, st.responses);
    var row := GetTemplateComparison(st)[i];
    ComparisonRows(st, i);
    JoinScoresInUnit(st, st.responses);
    GroupAverageInUnit(Group(js, row.templateType), d);
  }
}
