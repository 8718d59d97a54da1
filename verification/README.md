# Prompt experiments: a Dafny model

This project models the core of a small pipeline for running LLM prompt experiments. An
experiment configuration lists prompt specifications; each names a text template and the
values for its fields. The runner does the following:

- creates an experiment row;
- renders each template;
- records the prompt;
- asks the model for a completion;
- records the response;
- scores it on six heuristic dimensions;
- records the scores.

Three read queries report on the stored results:

- the results of one experiment, newest first;
- all experiments;
- a per-template comparison of averages.

The model is written in Dafny 4.11. Its modules follow the program's files:

| module | file | models |
|---|---|---|
| `Text` | text.dfy | the string primitives the scorer and renderer use: `lower`, `in`, `split`, `strip`, `re.findall(r'\b\w+\b')`, `re.split(r'[.!?]+')` (ASCII) |
| `Metrics` | metrics.dfy | the six dimension names and the score map type |
| `Evaluator` | evaluator.dfy | `ResponseEvaluator`: relevance, accuracy, completeness, consistency, efficiency, bias and the score map |
| `PromptLoader` | prompt_loader.dfy | `PromptLoader`: loading from a directory listing, lookup, listing, and `str.format` rendering with keyword fields |
| `LlmClient` | llm_client.dfy | `LLMClient`: construction from the environment, option defaulting, one generation, the batch loop |
| `ExperimentConfig` | config.dfy | the configuration document as a datatype |
| `Database` | database.dfy | `Database`: four append-only tables, the create operations, the join, ordering and `AVG`/`GROUP BY` semantics of the three queries |
| `ExperimentRunner` | run_experiment.dfy | `ExperimentRunner.run` and `_process_prompt` as a fold over the specs that threads the store |
| `Wrappers` | wrappers.dfy | `Option` and `Result` |

The outside world enters as parameters:

- **Remote model.** An oracle `(nat, Request) -> Reply` gives the reply to the call with a given position in the run.
- **Environment.** The variables arrive already parsed.
- **Templates directory.** It is a listing of `(filename, contents or unreadable)`, or `None` when the directory does not exist.
- **Start time.** It is a string.
- **Creation stamps.** A logical clock in the store supplies them.

Scores are exact reals.

## Model

| member | source | states |
|---|---|---|
| Text.Lower | evaluator.py:45-46 | lower-casing keeps the length and maps every character through the ASCII lower-case map |
| Text.OccursImpliesContains | evaluator.py:73-74 | the substring test finds every occurrence of `w` at any position of `s` |
| Text.ContainsImpliesOccurs | evaluator.py:73-74 | the substring test succeeds only when there is an occurrence, and returns its position |
| Text.CountPresent | evaluator.py:73-74 | the number of listed phrases present is at most the list length, and is zero exactly when none is present |
| Text.CountPresentIsCardinality | evaluator.py:73-74 | for a list without repeats, the count equals the size of the set of phrases present |
| Text.RunLength | evaluator.py:45 | the longest prefix of word characters: all of its characters qualify and the next one does not |
| Text.Words | evaluator.py:45 | the words found are non-empty runs of word characters, and there are none exactly when the text has no word character |
| Text.Fields | evaluator.py:88 | the whitespace-separated fields are non-empty and free of whitespace, and there are none exactly when the text is all whitespace |
| Text.RunsEmpty | evaluator.py:45 | there are no runs exactly when no character belongs to the class |
| Text.RunsBound | evaluator.py:88 | runs are separated by other characters, so a text of length `n` has at most `(n + 1) / 2` of them |
| Text.RunsSplitAt | evaluator.py:45-46 | a separator character splits the word list into the words on its left followed by those on its right |
| Text.SplitSentences | evaluator.py:89 | splitting on terminator runs yields at least one piece, and no piece contains a terminator |
| Text.SplitSentencesRebuild | evaluator.py:89 | the pieces, put back together with the maximal terminator runs between them, give the text again |
| Text.SplitSentencesOccur | evaluator.py:124 | every piece of the split occurs in the text, at a position the lemma returns |
| Text.SplitSentencesCount | evaluator.py:89 | the split yields exactly one piece more than there are terminator runs |
| Text.Strip | evaluator.py:124 | the stripped text is empty exactly when the input is all whitespace, and otherwise neither starts nor ends with whitespace |
| Text.StripStart | evaluator.py:124 | the stripped text is the segment of the input at this offset, with only whitespace before and after it |
| Metrics.Named | evaluator.py:24-31 | each of the six score keys names the dimension whose key it is |
| Metrics.KeyNamed | evaluator.py:24-31 | every dimension's key is one of the six and names that dimension back |
| Evaluator.Clamp01 | evaluator.py:81 | `max(0, min(x, 1))` lies in [0, 1], is `x` inside the interval and the nearer bound outside it |
| Evaluator.OverlapScore | evaluator.py:48-55 | 0.5 for no prompt words, otherwise the share of the prompt words that the response also has, always within [0, 1] |
| Evaluator.Relevance | evaluator.py:36-55 | relevance is in [0, 1]: 0.5 when the prompt has no content words, otherwise the share of them the response repeats |
| Evaluator.RelevanceFull | evaluator.py:52-53 | relevance is 1.0 exactly when every content word of the prompt occurs in the response |
| Evaluator.RelevanceZero | evaluator.py:52-53 | relevance is 0.0 exactly when prompt and response share no content word |
| Evaluator.RelevanceMonotone | evaluator.py:45-53 | a response whose content words include another's is at least as relevant |
| Evaluator.RelevanceGrowsWithText | evaluator.py:45-53 | appending text after a space never lowers relevance |
| Evaluator.RelevanceFullExample | evaluator.py:42-53 | "the cat sat" against "cat sat" scores 1.0: stop words are dropped before the overlap |
| Evaluator.RelevanceStopWordsExample | evaluator.py:42-49 | a prompt made only of stop words scores 0.5 for every response |
| Evaluator.ContentWordsOfTwo | evaluator.py:45-46 | two lower-case words joined by a space have exactly those words, minus stop words, as content words |
| Evaluator.ContentWordsOfThree | evaluator.py:45-46 | three lower-case words joined by spaces have exactly those words, minus stop words, as content words |
| Evaluator.RelevanceDropsStopWord | evaluator.py:42-53 | a prompt `a b c` whose first word is a stop word is fully covered by the response `b c` |
| Evaluator.AccuracyScore | evaluator.py:76-81 | the accuracy arithmetic, clamped, stays in [0, 1] |
| Evaluator.Accuracy | evaluator.py:57-81 | accuracy lies in [0.15, 1.0] and is fixed by the numbers of distinct confidence and hedge words present; 0.7 when neither occurs |
| Evaluator.AccuracyExamples | evaluator.py:76-81 | one confidence word gives 0.75, two hedges 0.6, eight confidence words saturate at 1.0 |
| Evaluator.AccuracyScoreMonotone | evaluator.py:76-81 | more confidence words never lower accuracy, and more hedge words never raise it |
| Evaluator.SentenceCount | evaluator.py:89 | the sentence count is at least one: one more than the terminator runs of the stripped text |
| Evaluator.WordCount | evaluator.py:88 | the word count is zero exactly when the response is all whitespace, and at most `(n + 1) / 2` for a response of length `n` |
| Evaluator.WordScore | evaluator.py:92 | below 100 words the score is below 1.0; from 100 on it is at least 0.5 and at most 1.5 |
| Evaluator.SentenceScore | evaluator.py:93 | the sentence score is in [0, 1] and at least 0.2 for any positive count |
| Evaluator.HasStructureOccurs | evaluator.py:96 | the structure test holds exactly when one of the six markers occurs somewhere in the response |
| Evaluator.Completeness | evaluator.py:83-101 | completeness lies in [0.1, 1.0], and a response with a structure marker scores at least 0.2 |
| Evaluator.WordScoreOvershoots | evaluator.py:92 | 150 words give a word score of 1.25, more than the score for 99 words |
| Evaluator.SentenceCountExamples | evaluator.py:89 | "Hello." counts two sentences (the empty trailing piece counts) and "" counts one |
| Evaluator.TrailingTerminatorCounts | evaluator.py:89 | a word without terminators followed by one terminator counts two sentences, the empty piece after the terminator included |
| Evaluator.ContrastBase | evaluator.py:115-121 | the contrast base lies in [0.3, 0.9] and is 0.3 from four contrast words on |
| Evaluator.ContrastBaseAntitone | evaluator.py:115-121 | more contrast words never raise the base score |
| Evaluator.ContrastBaseExamples | evaluator.py:116-121 | no contrast word gives 0.9, one gives 0.7, three give 0.4 |
| Evaluator.DropEmptyKeeps | evaluator.py:124 | the kept items are the input items at increasing positions, and every non-empty item is kept |
| Evaluator.NonBlankKeeps | evaluator.py:124 | the sentences kept are the stripped pieces, in order, and exactly those pieces that do not strip to nothing are kept |
| Evaluator.Sentences | evaluator.py:124 | every sentence is non-empty, has no whitespace at either end, contains no terminator, and occurs in the response |
| Evaluator.Consistency | evaluator.py:103-129 | consistency is in (0, 0.9], never above the contrast base, and equal to it when no sentence repeats |
| Evaluator.Penalized | evaluator.py:125-129 | scaling a base score by the share of distinct sentences keeps it positive and at most the base, and leaves it unchanged when no sentence repeats |
| Evaluator.ConsistencyUnpenalized | evaluator.py:116-127 | no contrast word and no repeated sentence give 0.9 |
| Evaluator.TimeScore | evaluator.py:137-144 | the latency step score is between 0.4 and 1.0 |
| Evaluator.TokenScore | evaluator.py:147-154 | the token step score is between 0.4 and 1.0 |
| Evaluator.Efficiency | evaluator.py:131-156 | efficiency, the mean of the two step scores, is in [0.4, 1.0] |
| Evaluator.EfficiencyAntitone | evaluator.py:137-156 | a slower or longer generation never scores higher |
| Evaluator.EfficiencyExamples | evaluator.py:137-156 | (1 s, 100 tokens) gives 1.0, (6 s, 200) gives 0.7, (6 s, 400) gives 0.6 |
| Evaluator.BiasScore | evaluator.py:173-181 | the bias score is in [0, 1], 1.0 with no loaded phrase and 0.0 from eleven on |
| Evaluator.BiasScoreAntitone | evaluator.py:174-181 | more loaded phrases never raise the bias score |
| Evaluator.BalanceBonus | evaluator.py:177-179 | a balancing cue raises the score by at most 0.1 and never lowers it |
| Evaluator.Bias | evaluator.py:158-181 | bias is in [0, 1], fixed by the distinct loaded phrases present and by whether a balancing cue occurs; 1.0 with no loaded phrase |
| Evaluator.ScoreOf | evaluator.py:24-31 | each dimension's score is in [0, 1] |
| Evaluator.Evaluate | evaluator.py:18-34 | the score map has exactly the six keys and every value in [0, 1] |
| Evaluator.EvaluateEntries | evaluator.py:24-31 | the entry under each dimension's key is that dimension's score |
| PromptLoader.Fill | prompt_loader.py:53-58 | substitution succeeds exactly when every field the template uses has a value |
| PromptLoader.ParsePiece | prompt_loader.py:53 | reading the text of one piece (a literal, an escaped brace or a named field) yields that piece in front of the rest |
| PromptLoader.UnparseParse | prompt_loader.py:53 | every well-formed piece sequence is read back from the template text that spells it |
| PromptLoader.ParseStep | prompt_loader.py:53 | a template that reads consumes one piece's text at a time |
| PromptLoader.ParseUnparse | prompt_loader.py:53 | every template that reads is well-formed and is written back verbatim, so reading is injective |
| PromptLoader.FillAppend | prompt_loader.py:53 | rendering distributes over template concatenation |
| PromptLoader.FillCons | prompt_loader.py:53 | a piece whose variable is present puts its value (the character, or the variable's value) in front of the others' output, and fails exactly when they fail |
| PromptLoader.FieldNamesAppend | prompt_loader.py:53 | the fields of a concatenation are the fields of both parts |
| PromptLoader.FillOnePiece | prompt_loader.py:53-58 | a literal renders as itself; a field renders as its value, or fails when it has none |
| PromptLoader.FillIgnoresUnused | prompt_loader.py:53 | variables the template does not use make no difference |
| PromptLoader.Format | prompt_loader.py:51-61 | `format(**variables)` succeeds exactly when the template reads and all its fields have values |
| PromptLoader.FormatUnparse | prompt_loader.py:53 | formatting the text of well-formed pieces is filling those pieces |
| PromptLoader.FormatVerbatim | prompt_loader.py:53 | a template without braces renders to itself whatever the variables |
| PromptLoader.UnparseLits | prompt_loader.py:53 | brace-free text is well-formed literal pieces with no fields |
| PromptLoader.FillLits | prompt_loader.py:53 | literal pieces render as their characters, braces included |
| PromptLoader.UnparseAppend | prompt_loader.py:53 | writing pieces out distributes over concatenation |
| PromptLoader.OneFieldText | prompt_loader.py:53 | brace-free text around one named field is well-formed and spells `pre{name}post` |
| PromptLoader.OneFieldFill | prompt_loader.py:53 | that piece sequence fills to `pre + value + post` |
| PromptLoader.FormatOneField | prompt_loader.py:53 | `pre{name}post` renders to `pre + vars[name] + post` |
| PromptLoader.FormatGreeting | prompt_loader.py:53 | "Hi {name}!" with name Ada renders "Hi Ada!" |
| PromptLoader.FormatEscapedBraces | prompt_loader.py:53 | "{{x}}" renders "{x}" without any variable |
| PromptLoader.FormatMissingVariable | prompt_loader.py:53-58 | "{topic}" without a value for topic fails |
| PromptLoader.Put | prompt_loader.py:33 | dictionary assignment: the name maps to the new text, other names keep theirs, existing keys keep their order, a new key goes last |
| PromptLoader.TemplateNameOfStem | prompt_loader.py:27-28 | a file name mentioning `.txt` only at its end is named by its stem |
| PromptLoader.TemplateNameDoubleSuffix | prompt_loader.py:28 | "a.txt.txt" is named "a": every occurrence of the suffix is removed |
| PromptLoader.TemplateNameShortens | prompt_loader.py:28 | removing the suffix never lengthens a file name, and a name without `.txt` is kept as it is |
| PromptLoader.LoadEntry | prompt_loader.py:26-36 | one scan step keeps the store a valid dictionary |
| PromptLoader.LoadAll | prompt_loader.py:26-36 | the scan over the listing yields a valid dictionary |
| PromptLoader.LoadTemplates | prompt_loader.py:20-36 | loading yields a valid dictionary, empty when the directory does not exist |
| PromptLoader.LoadAllContents | prompt_loader.py:26-36 | a name is known exactly when some readable `.txt` entry maps to it, and its text is that of the last such entry |
| PromptLoader.ListTemplates | prompt_loader.py:63-65 | the listed names are distinct and are exactly the names lookup finds |
| PromptLoader.GetTemplateListed | prompt_loader.py:38-43 | lookup finds a template exactly when its name is listed |
| PromptLoader.RenderTemplate | prompt_loader.py:45-61 | rendering succeeds exactly when the name is known, its text is non-empty, the text reads, and all its fields have values; then the result is the stored text formatted with the variables |
| PromptLoader.RenderVerbatim | prompt_loader.py:45-55 | a stored non-empty template without braces renders to its own text |
| LlmClient.NewClient | llm_client.py:20-29 | no client without a non-empty API key; a truthy model argument wins, else the environment default, else the fallback; temperature and token limit are the environment values when set and the fallbacks otherwise |
| LlmClient.BuildRequest | llm_client.py:44-51 | the request carries the client's model and the prompt; a per-call option overrides the default only when truthy |
| LlmClient.ZeroOptionsFallBack | llm_client.py:49-50 | an explicit 0 or 0.0 is not an override |
| LlmClient.GenerateResponse | llm_client.py:33-67 | success exactly when the service completes; the record carries its text, tokens and latency under the client's model; a failure's message is passed on |
| LlmClient.ErrorPlaceholder | llm_client.py:85-90 | the failure placeholder is "ERROR: " plus the message, with zero tokens and time, under the client's model |
| LlmClient.BatchGenerate | llm_client.py:69-92 | one record per prompt in order, each the generation or its placeholder, independent of the other prompts |
| Database.ScoresBy | database.py:79-84 | the score row built dimension by dimension has each given column |
| Database.MaxId | database.py:40 | no id in the table exceeds the maximum |
| Database.Insert | database.py:40 | the next `AUTOINCREMENT` id is positive, larger than every earlier id, and keeps the table ordered |
| Database.HasIdExtends | database.py:40 | appending a row keeps every existing id |
| Database.CreateExperiment | database.py:94-104 | appends exactly the experiment row with a fresh id, leaves the other tables, keeps the store valid and linked |
| Database.StoredVariables | database.py:112 | the variables column is `NULL` exactly when none or an empty mapping was given |
| Database.CreatePrompt | database.py:106-115 | appends exactly the prompt row with a fresh id, leaves the other tables, keeps the store valid, and linked when the experiment exists |
| Database.CreateResponse | database.py:117-128 | appends exactly the response row with a fresh id, leaves the other tables, keeps the store valid, and linked when the prompt exists |
| Database.ScoresFrom | database.py:138-140 | each score column is the map's value under the dimension's key, or `NULL` |
| Database.CreateEvaluation | database.py:130-143 | appends exactly the evaluation row with a fresh id, leaves the other tables, keeps the store valid, linked when the response exists, and scores in [0, 1] |
| Database.AppendEvaluation | database.py:130-143 | appending an evaluation that names an existing response keeps every reference valid, and one with scores in [0, 1] keeps all scores in range |
| Database.ScoresFromInUnit | database.py:130-143 | a score map with values in [0, 1] is stored with every column in [0, 1] or `NULL` |
| Database.EvaluationsOf | database.py:167 | the scores of exactly the evaluations referencing the response |
| Database.EvaluationsOfCount | database.py:167 | a response gets one entry per evaluation row that references it |
| Database.Pair | database.py:166-167 | one joined row per evaluation of the response, in order: row `k` pairs the prompt and response with evaluation `k` |
| Database.LeftJoin | database.py:167 | a left join yields one row per evaluation, or a single row of `NULL`s when there is none, and no other rows |
| Database.JoinPrompts | database.py:165-167 | a response joins exactly the prompts with the id it references |
| Database.JoinPromptsCount | database.py:165-167 | each prompt row with the referenced id contributes one left join: the row count is the number of such prompts times the left join's fan-out |
| Database.ResponseJoin | database.py:164-167 | the rows of one response are exactly the joined rows for it |
| Database.ResponseJoinCount | database.py:164-167 | a response yields as many rows as prompts with its prompt id, times the number of its evaluations or one when it has none |
| Database.ResponseJoinLinked | database.py:164-167 | in a consistent store, a response whose prompt exists yields one row per evaluation, or one row when it has none |
| Database.UniqueId | database.py:40 | an `AUTOINCREMENT` id occurs at most once in its table |
| Database.Join | database.py:164-167 | a row is in the join exactly when its response is one of those given and it is a joined row |
| Database.JoinAppend | database.py:164-167 | the join of a concatenation of responses is the concatenation of their joins, and one response contributes exactly its own rows |
| Database.ConcatInOrder | database.py:169 | rows of one stamp followed by ordered later rows are in creation order |
| Database.JoinInOrder | database.py:164-169 | responses in creation order give joined rows in creation order |
| Database.FindExperiment | database.py:164-168 | the experiment row with the id, absent exactly when no row has it |
| Database.PromptsOf | database.py:165-168 | exactly the prompts of the experiment |
| Database.GetExperimentResults | database.py:145-172 | no rows for an unknown experiment, otherwise one row per joined row of the experiment |
| Database.ResultRowAt | database.py:145-172 | result row `k` is the `k`-th joined row from the end |
| Database.ResultsNewestFirst | database.py:169 | in a valid store the result rows come newest response first |
| Database.ResultsSound | database.py:145-172 | every result row comes from a response to a prompt of the experiment and carries one of its evaluations or `NULL`s |
| Database.ExperimentJoinSound | database.py:145-172 | a joined row of the experiment pairs one of its prompts with a response that references it, and carries one of the response's evaluations or `NULL`s |
| Database.ResultsComplete | database.py:145-172 | every response to a prompt of the experiment appears with each of its evaluations, or with `NULL`s |
| Database.GetAllExperiments | database.py:174-178 | every experiment exactly once, newest first in a valid store |
| Database.Present | database.py:187-194 | the non-null values, empty exactly when all are null |
| Database.PresentKeeps | database.py:187-194 | every non-null value is kept, and exactly one value is dropped per `NULL` |
| Database.Average | database.py:187-194 | SQL `AVG` is `NULL` exactly when every value is `NULL`; its value is pinned by `AverageTimesCount`, `AverageOne` and `AverageCombine` |
| Database.PresentAppend | database.py:187-194 | the non-null values of a concatenation are those of both parts |
| Database.AverageSkipsNull | database.py:187-194 | a `NULL` anywhere leaves the average as it was |
| Database.AverageNullExample | database.py:187-194 | the average of 1.0 and `NULL` is 1.0, not 0.5 |
| Database.SumBounds | database.py:187-194 | a sum of bounded values is bounded by count times the bounds |
| Database.AverageBounds | database.py:187-194 | the average of values within bounds stays within them |
| Database.SumAppend | database.py:187-194 | the sum of a concatenation is the sum of the two sums |
| Database.AverageOne | database.py:187-194 | the average of one value is that value, and of one `NULL` is `NULL` |
| Database.AverageTimesCount | database.py:187-194 | a non-null average times the number of non-null values is their sum, so `AVG` is the mean |
| Database.AverageCombine | database.py:187-194 | over two lists one after the other, the average times the count is the sum of both lists' sums: the weighted mean of the parts |
| Database.AverageTwoExample | database.py:187-194 | the average of 0.0 and 1.0 is 0.5 |
| Database.TemplatesOf | database.py:198 | the grouping keys are distinct and are exactly the templates of the joined rows |
| Database.Group | database.py:198 | a group holds exactly the joined rows of its template |
| Database.GroupCount | database.py:198 | a group holds each joined row of its template as many times as the join does, and no other row |
| Database.Summarize | database.py:184-194 | the aggregate row carries the template and the group size; time and token averages are `NULL` exactly for an empty group; a score average is `NULL` exactly when the group has no value for that dimension |
| Database.SummarizeOne | database.py:184-194 | for a template group of one joined row, the time average is its response time, the token average its token count, and each score average its score, column by column |
| Database.GetTemplateComparison | database.py:180-201 | distinct templates, every joined row's template listed, every count at least one |
| Database.GroupsNonEmpty | database.py:195-198 | every listed template has joined rows, and every joined row's template is listed |
| Database.ComparisonRows | database.py:180-201 | each aggregate row summarises the group of a template that occurs in the join |
| Database.JoinScoresInUnit | database.py:167 | joined rows inherit stored scores in [0, 1] |
| Database.GroupAverageInUnit | database.py:189-194 | the average of scores in [0, 1] is in [0, 1] or `NULL` |
| Database.ComparisonScoresInRange | database.py:180-201 | with every stored score in [0, 1], every averaged score is in [0, 1] or `NULL` |
| ExperimentRunner.RunnerClient | run_experiment.py:37 | the runner's client exists exactly when the key is set; a non-empty configured model wins; an empty one gives way to `DEFAULT_MODEL`, else the fallback (llm_client.py:27); an absent one gives the fallback the runner passes |
| ExperimentRunner.ExperimentName | run_experiment.py:61 | the configured name, or `experiment_` followed by the start time |
| ExperimentRunner.RenderSpec | run_experiment.py:81-89 | a spec yields prompt text exactly when rendering succeeds with non-empty text |
| ExperimentRunner.ProcessPrompt | run_experiment.py:79-139 | a failed render writes nothing; otherwise the new prompt row holds the experiment id, the template name, the rendered text and the stored variables; a failed generation writes only the prompt; otherwise one prompt, response and evaluation; experiments untouched; validity, links and score range preserved |
| ExperimentRunner.RecordGeneration | run_experiment.py:112-136 | after a successful generation, the response row under the prompt and then an evaluation row with the evaluator's scores and the note naming the template are appended; prompts and experiments stay; validity, links and score range are preserved |
| ExperimentRunner.CompletedRows | run_experiment.py:95-136 | a completed step stores the rendered prompt, the response under the client's model linked to it, and an evaluation linked to the response with every dimension's score and the template note |
| ExperimentRunner.PromptsCreated | run_experiment.py:87-100 | at most one prompt row per spec |
| ExperimentRunner.Completions | run_experiment.py:103-136 | no more completions than prompt rows |
| ExperimentRunner.ProcessAll | run_experiment.py:66-70 | one outcome per spec, in list order; each spec that renders gets exactly its prompt row (the experiment id, its template, its rendered text and its variables), placed after the rows of the specs before it, under an id larger than every earlier id, so the ids increase along the list; tables only grow; row counts match the outcomes; validity, links and score range preserved |
| ExperimentRunner.PlacedStep | run_experiment.py:66-70 | one more spec keeps the earlier rows in place and puts its own row, if any, after them |
| ExperimentRunner.PromptsCreatedGrows | run_experiment.py:87-100 | a spec that renders adds one to the prompt rows written before any later spec |
| ExperimentRunner.OutcomeAt | run_experiment.py:68-70 | each spec's outcome depends only on its own rendering and its own call, whatever happened before |
| ExperimentRunner.Run | run_experiment.py:53-77 | exactly one new experiment row with a fresh id, name and config; each spec that renders gets exactly its prompt row under that experiment, in list order with increasing ids; one outcome per spec; counts match; validity, links and score range preserved |
| ExperimentRunner.CountsOfThree | run_experiment.py:95-136 | completed, failed, completed creates three prompts and two completions |
| ExperimentRunner.MiddleGenerationFails | run_experiment.py:103-139 | when the middle of three generations fails, the run still stores three prompts, two responses and two evaluations |

## Left out

- **Storage and time.** SQLite, connections, commits and `CURRENT_TIMESTAMP` are not modelled. Creation stamps come from a logical clock that increases by one per insert.
  - Rows inserted within the same second get one shared timestamp in the source. `ORDER BY created_at DESC` may then return them in any order.
  - The model gives them distinct stamps. Newest-first by insertion is one of the orders the source allows.
- Database.GetTemplateComparison: group order. The `GROUP BY` query leaves the row order unspecified. The model lists templates by first appearance, so it states no order.
- **`AVG` over `tokens_used` and `response_time`.** These are averaged like the score columns. `COUNT(r.id)` counts joined rows, so a response with several evaluations counts several times, as in the query.
- **Write failures and scorer exceptions.** The model treats store writes and scoring as total; only generation fails. In the source:
  - a failure of `create_experiment` (run_experiment.py:60-63) or of `create_prompt` (run_experiment.py:95-100) happens outside the `try` and aborts the whole run;
  - a failure of `create_response`, `evaluate` or `create_evaluation` (run_experiment.py:113-136) is caught at run_experiment.py:138-139. The rows already written stay, so a prompt row, and possibly a response row, are left without an evaluation, and the run goes on with the next spec.
- **The remote API call.** It is an oracle indexed by the spec's position. It is not modelled:
  - latency measurement: the reply carries the elapsed time;
  - `response.choices[0]` indexing;
  - the `OpenAI` client object.
- **Environment parsing.** Environment variables arrive already parsed. `float()` or `int()` raising on a malformed `DEFAULT_TEMPERATURE` or `DEFAULT_MAX_TOKENS` is not modelled. `load_dotenv` is not modelled either.
- **Logging.** `logging` output does not change results.
- **Configuration.** YAML loading, `argparse`, `main` and the report generator are not modelled.
  - A configuration missing the `template` key is not modelled: `PromptSpec.template` is always a string.
  - The `json.dumps` serialisation of the config and variables is not modelled: the stored columns hold the values themselves.
- **Templates directory.** Filesystem access is a listing; an unreadable file is `None` contents. Listing order is taken as given.
- PromptLoader.Format: only part of `str.format`. It models literal text, `{{` and `}}` escapes, and named keyword fields whose values are strings. These `str.format` features are not modelled:
  - positional fields (`{}`, `{0}`);
  - attribute and index access (`{a.b}`, `{a[0]}`);
  - conversions (`!r`);
  - format specs (`:>10`).

  A template using any of them, or an unmatched brace, is treated as a failed render. In the source, positional fields and unmatched braces fail too. Attribute, index, conversion and spec forms would succeed or fail depending on the values. Values are strings, not arbitrary YAML scalars.
- **Text: ASCII only.** `str.lower`, `\w`, `\b` and `str.isspace` are modelled on ASCII only, with no Unicode case mapping, word characters or whitespace.
- **Floating point.** Scores, times and averages are exact reals, so IEEE rounding is not modelled. For example, 0.7 + 0.05 is exact here.
- Evaluator.WordScore: states behaviour as written. The score exceeds 1.0 between 100 and 199 words, although the source comment names 50-200 words as optimal. Only the final cap in `Completeness` bounds it. The contract states this behaviour and does not correct it.
- Evaluator.Consistency: lower bound. The contract states a strictly positive lower bound and the 0.9 ceiling rather than an exact value. The exact value depends on the number of distinct sentences, which the body computes.
- **Null configuration entries.** The model reads a key present with a null value as a missing key. The source does not: `config.get(key, default)` returns the null, not the default. So:
  - a null `model` reaches `LLMClient` as `None`, which consults `DEFAULT_MODEL` (run_experiment.py:37, llm_client.py:27), where the model uses the fallback model;
  - a null `experiment_name` reaches `create_experiment` as `None` (run_experiment.py:61-64), which breaks `name TEXT NOT NULL` (database.py:41) and aborts the run, where the model names the experiment `experiment_` and the start time;
  - a null `prompts` makes the loop fail after the experiment row is written (run_experiment.py:67-69), where the model runs no spec.
- **Determinism.** Every operation is a pure function of its inputs here, so it holds by construction.
