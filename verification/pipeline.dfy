/** One search from question to answer, as both `interactive_search` and the single-query branch of
    `main` run it: generate a query, search, select a result, read the page, record the search,
    answer. Each stage's external call is an input; a stage that fails ends the run. */
module Pipeline {
  import opened Options
  import opened Text
  import opened Inference
  import opened Search
  import opened Selection
  import opened Content
  import opened History

  /** The configuration values a run could read. Only `maxResults` is read: the retry count of
      both model calls is the default of `model_response`, not `maxRetries`. */
  datatype Config = Config(maxResults: int, maxRetries: int)

  const DefaultConfig := Config(8, 3)

  /** What the outside world does during one run. */
  datatype Services = Services(
    queryAttempts: seq<Attempt>,        // the model calls that generate the search query
    instances: seq<InstanceOutcome>,    // the SearxNG instances, in configuration order
    selectionAttempts: seq<Attempt>,    // the model calls that select a result
    page: PageOutcome,                  // the reader service's answer for the selected page
    answer: Stream,                     // the streamed final answer
    now: string)                        // the timestamp of the history entry

  /** A stage that ran, with what it was given. */
  datatype Step =
    | GenerateQuery(question: string)
    | SearchWeb(query: string)
    | SelectResult(question: string, query: string, results: seq<SearchResult>)
    | FetchPage(url: string)
    | RecordSearch(entry: HistoryEntry)
    | GenerateAnswer(question: string, query: string, title: string, content: string)

  /** The position of each stage in the pipeline. */
  function StageIndex(s: Step): nat {
    match s
    case GenerateQuery(_) => 0
    case SearchWeb(_) => 1
    case SelectResult(_, _, _) => 2
    case FetchPage(_) => 3
    case RecordSearch(_) => 4
    case GenerateAnswer(_, _, _, _) => 5
  }

  /** How a run ended: at the stage that failed, or with the streamed answer. */
  datatype Outcome = QueryFailed | NoResults | SelectionFailed | ContentFailed | Answered(answer: string)

  /** How many stages run before a run ends the way `o` says. */
  function StagesRun(o: Outcome): nat {
    match o
    case QueryFailed => 1
    case NoResults => 2
    case SelectionFailed => 3
    case ContentFailed => 4
    case Answered(_) => 6
  }

  /** Every stage that ran, in order; the entry recorded, if any; and the history afterwards. */
  datatype Run = Run(steps: seq<Step>, outcome: Outcome, recorded: Option<HistoryEntry>, history: seq<HistoryEntry>)

  /** `generate_search_query`: one model call with the default retry count. The query is the
      reply of the first of its attempts that got one, and there is none when all of them failed. */
  function GenerateSearchQuery(services: Services): (r: Option<string>)
    ensures r.None? <==> AllFailed(services.queryAttempts, DefaultRetries)
    ensures r.Some? ==> FirstRepliedWith(services.queryAttempts, DefaultRetries, r.value)
  {
    var run := Retry(services.queryAttempts, DefaultRetries);
    if run.reply.Some? then
      assert AllFailed(services.queryAttempts, run.attempts - 1);
      run.reply
    else
      run.reply
  }

  /** The model's reply to the selection prompt, with the default retry count: the reply of the
      first of its attempts that got one, and none when all of them failed. */
  function SelectionReply(services: Services): (r: Option<string>)
    ensures r.None? <==> AllFailed(services.selectionAttempts, DefaultRetries)
    ensures r.Some? ==> FirstRepliedWith(services.selectionAttempts, DefaultRetries, r.value)
  {
    var run := Retry(services.selectionAttempts, DefaultRetries);
    if run.reply.Some? then
      assert AllFailed(services.selectionAttempts, run.attempts - 1);
      run.reply
    else
      run.reply
  }

  /** Python's truth test on an optional string or list: present and non-empty. */
  predicate Truthy<T>(o: Option<seq<T>>) {
    o.Some? && o.value != []
  }

  /** The stages listed ran in the pipeline's order, none skipped. */
  predicate InOrder(steps: seq<Step>) {
    forall i :: 0 <= i < |steps| ==> StageIndex(steps[i]) == i
  }

  /** A stage appended right after the stages before it keeps the order. */
  lemma InOrderExtend(steps: seq<Step>, s: Step)
    requires InOrder(steps) && StageIndex(s) == |steps|
    ensures InOrder(steps + [s])
  {
    assert forall i :: 0 <= i < |steps| ==> (steps + [s])[i] == steps[i];
  }

  /** Stage order checked position by position. */
  lemma InOrderByPosition(steps: seq<Step>)
    requires |steps| <= 6
    requires |steps| > 0 ==> steps[0].GenerateQuery?
    requires |steps| > 1 ==> steps[1].SearchWeb?
    requires |steps| > 2 ==> steps[2].SelectResult?
    requires |steps| > 3 ==> steps[3].FetchPage?
    requires |steps| > 4 ==> steps[4].RecordSearch?
    requires |steps| > 5 ==> steps[5].GenerateAnswer?
    ensures InOrder(steps)
  {
  }

  /** One run of the pipeline from `question`, starting from the history `history`. The stages
      that ran are a prefix of the pipeline's order: no stage runs after one that failed, and
      none is skipped. The history changes only when the run reaches the answer, and then by
      appending the recorded entry. */
  function RunPipeline(config: Config, question: string, services: Services, history: seq<HistoryEntry>): (r: Run)
    ensures |r.steps| == StagesRun(r.outcome)
    ensures InOrder(r.steps)
    ensures r.recorded.Some? <==> r.outcome.Answered?
    ensures r.recorded.None? ==> r.history == history
    ensures r.recorded.Some? ==> r.history == AppendEntry(history, r.recorded.value)
  {
    var query := GenerateSearchQuery(services);
    if !Truthy(query) then
      var steps := [GenerateQuery(question)];
      InOrderByPosition(steps);
      Run(steps, QueryFailed, None, history)
    else
      var found := BrowseWeb(services.instances, config.maxResults).found;
      if !Truthy(found) then
        var steps := [GenerateQuery(question), SearchWeb(query.value)];
        InOrderByPosition(steps);
        Run(steps, NoResults, None, history)
      else
        var selected := SelectBestResult(SelectionReply(services), found.value);
        SelectAndRead(question, query.value, found.value, selected, services, history)
  }

  /** The stages after a successful search, given what the selection came to: no selection ends
      the run, otherwise the selected page is read. */
  function SelectAndRead(question: string, query: string, results: seq<SearchResult>, selected: Option<Selected>,
                         services: Services, history: seq<HistoryEntry>): (r: Run)
    ensures |r.steps| == StagesRun(r.outcome) && |r.steps| >= 3
    ensures r.outcome == SelectionFailed <==> selected.None?
    ensures InOrder(r.steps)
    ensures r.recorded.Some? <==> r.outcome.Answered?
    ensures r.recorded.None? ==> r.history == history
    ensures r.recorded.Some? ==> r.history == AppendEntry(history, r.recorded.value)
  {
    if selected.None? then
      var steps := [GenerateQuery(question), SearchWeb(query), SelectResult(question, query, results)];
      InOrderByPosition(steps);
      Run(steps, SelectionFailed, None, history)
    else
      ReadAndAnswer(question, query, results, selected.value, PageContent(services.page), services, history)
  }

  /** The stages from reading the selected page on: the page is fetched from the selected URL with
      a scheme added; content that is missing or empty ends the run; otherwise the search is
      recorded and the answer streamed. */
  function ReadAndAnswer(question: string, query: string, results: seq<SearchResult>, selected: Selected,
                         content: Option<string>, services: Services, history: seq<HistoryEntry>): (r: Run)
    ensures |r.steps| == StagesRun(r.outcome) && |r.steps| >= 4
    ensures InOrder(r.steps)
    ensures r.recorded.Some? <==> Truthy(content)
    ensures r.recorded.Some? <==> r.outcome.Answered?
    ensures r.recorded.None? ==> r.history == history
    ensures r.recorded.Some? ==> r.history == AppendEntry(history, r.recorded.value)
    ensures r.recorded.Some? ==> r.recorded.value == HistoryEntry(services.now, question, query, selected)
    ensures r.outcome.Answered? ==> r.outcome.answer == StreamedAnswer(services.answer)
  {
    var fetched := [GenerateQuery(question), SearchWeb(query), SelectResult(question, query, results),
                    FetchPage(NormalizeUrl(selected.url))];
    InOrderByPosition(fetched);
    if !Truthy(content) then
      Run(fetched, ContentFailed, None, history)
    else
      var entry := HistoryEntry(services.now, question, query, selected);
      var steps := fetched + [RecordSearch(entry), GenerateAnswer(question, query, selected.title, content.value)];
      InOrderExtend(fetched, RecordSearch(entry));
      InOrderExtend(fetched + [RecordSearch(entry)], steps[5]);
      assert steps == fetched + [RecordSearch(entry)] + [steps[5]];
      Run(steps, Answered(StreamedAnswer(services.answer)), Some(entry), AppendEntry(history, entry))
  }

  /** The entry a run records holds the question, the generated query, the selected title and URL
      and the run's timestamp; the selection was asked for with the search results, the page was
      fetched from the selected URL with a scheme added, and the answer was asked for with the same
      question, query and title and with the page's stripped and capped content. */
  lemma RecordedEntry(config: Config, question: string, services: Services, history: seq<HistoryEntry>)
    ensures var r := RunPipeline(config, question, services, history);
      var found := BrowseWeb(services.instances, config.maxResults).found;
      var content := PageContent(services.page);
      r.recorded.Some? ==> found.Some? && content.Some? && RecordsItsStages(r, question, services, found.value, content.value)
  {
    var query := GenerateSearchQuery(services);
    if Truthy(query) {
      var found := BrowseWeb(services.instances, config.maxResults).found;
      if Truthy(found) {
        var selected := SelectBestResult(SelectionReply(services), found.value);
        if selected.Some? {
          ReadAndAnswerRecords(question, query.value, found.value, selected.value, PageContent(services.page),
                               services, history);
        }
      }
    }
  }

  /** The steps of an answered run agree with the entry it recorded, with the search `results` and
      with the page `content` that was read. */
  predicate RecordsItsStages(r: Run, question: string, services: Services, results: seq<SearchResult>, content: string)
    requires r.recorded.Some? && |r.steps| == 6
  {
    var e := r.recorded.value;
    && e.question == question
    && e.timestamp == services.now
    && r.steps[0] == GenerateQuery(question)
    && r.steps[1] == SearchWeb(e.query)
    && r.steps[2] == SelectResult(question, e.query, results)
    && r.steps[3] == FetchPage(NormalizeUrl(e.result.url))
    && r.steps[4] == RecordSearch(e)
    && r.steps[5].GenerateAnswer?
    && r.steps[5].question == question && r.steps[5].query == e.query && r.steps[5].title == e.result.title
    && r.steps[5].content == content
    && r.outcome == Answered(StreamedAnswer(services.answer))
  }

  lemma ReadAndAnswerRecords(question: string, query: string, results: seq<SearchResult>, selected: Selected,
                             content: Option<string>, services: Services, history: seq<HistoryEntry>)
    ensures var r := ReadAndAnswer(question, query, results, selected, content, services, history);
      r.recorded.Some? ==>
        content.Some? && RecordsItsStages(r, question, services, results, content.value) && r.recorded.value.query == query
  {
    if Truthy(content) {
      var r := ReadAndAnswer(question, query, results, selected, content, services, history);
      var entry := HistoryEntry(services.now, question, query, selected);
      assert r.steps == [GenerateQuery(question), SearchWeb(query), SelectResult(question, query, results),
                         FetchPage(NormalizeUrl(selected.url)), RecordSearch(entry),
                         GenerateAnswer(question, query, selected.title, content.value)];
    }
  }

  /** A search is recorded exactly when query generation, search, selection and page retrieval
      all succeeded, and then with the question, the query and the selected title and URL. */
  lemma RecordedIffStagesSucceed(config: Config, question: string, services: Services, history: seq<HistoryEntry>)
    ensures var r := RunPipeline(config, question, services, history);
      var query := GenerateSearchQuery(services);
      var found := BrowseWeb(services.instances, config.maxResults).found;
      r.recorded.Some? <==>
        && Truthy(query)
        && Truthy(found)
        && SelectBestResult(SelectionReply(services), found.value).Some?
        && Truthy(PageContent(services.page))
    ensures var r := RunPipeline(config, question, services, history);
      r.recorded.Some? ==>
        r.recorded.value == HistoryEntry(services.now, question, GenerateSearchQuery(services).value,
          SelectBestResult(SelectionReply(services), BrowseWeb(services.instances, config.maxResults).found.value).value)
  {
  }

  /** Each outcome names the stage that failed: the first stage whose result is missing or empty
      ends the run, and only then. */
  lemma FailingStageEndsRun(config: Config, question: string, services: Services, history: seq<HistoryEntry>)
    ensures var r := RunPipeline(config, question, services, history);
      var query := GenerateSearchQuery(services);
      var found := BrowseWeb(services.instances, config.maxResults).found;
      && (r.outcome == QueryFailed <==> !Truthy(query))
      && (r.outcome == NoResults <==> Truthy(query) && !Truthy(found))
      && (r.outcome == SelectionFailed <==>
            Truthy(query) && Truthy(found) && SelectBestResult(SelectionReply(services), found.value).None?)
      && (r.outcome == ContentFailed <==>
            && Truthy(query) && Truthy(found) && SelectBestResult(SelectionReply(services), found.value).Some?
            && !Truthy(PageContent(services.page)))
  {
  }

  /** When the selection model call gives up, the run stops without a selection even though the
      search found results: there is no fallback to the first result on this path. */
  lemma SelectionModelFailureStopsRun(config: Config, question: string, services: Services, history: seq<HistoryEntry>)
    requires Truthy(GenerateSearchQuery(services))
    requires Truthy(BrowseWeb(services.instances, config.maxResults).found)
    requires AllFailed(services.selectionAttempts, DefaultRetries)
    ensures RunPipeline(config, question, services, history).outcome == SelectionFailed
    ensures RunPipeline(config, question, services, history).history == history
  {
  }

  /** The configured `max_retries` makes no difference to a run. */
  lemma MaxRetriesUnused(config: Config, otherRetries: int, question: string, services: Services, history: seq<HistoryEntry>)
    ensures RunPipeline(config, question, services, history)
         == RunPipeline(config.(maxRetries := otherRetries), question, services, history)
  {
  }

  const France := SearchResult(Some("France"), Some("france.example/capital"), Some("Paris is the capital."))
  const FranceQuestion := "What is the capital of France?"
  const FranceQuery := "capital of France"
  const FranceReply := "The first one looks best."

  /** The services of the example run: every model call answers at once, the one instance finds
      `France`, and the reader service returns `page`. */
  function FranceServices(page: string, answer: Stream, now: string): Services {
    Services([Replied(FranceQuery)], [Responded([France])], [Replied(FranceReply)], PageText(page), answer, now)
  }

  /** In the example run the query is generated, the search finds `France` and the selection
      model replies on the first attempt. */
  lemma FranceSearch(page: string, answer: Stream, now: string)
    ensures var services := FranceServices(page, answer, now);
      && GenerateSearchQuery(services) == Some(FranceQuery)
      && BrowseWeb(services.instances, DefaultConfig.maxResults).found == Some([France])
      && SelectionReply(services) == Some(FranceReply)
  {
  }

  /** A reply that names no field selects the first result. */
  lemma FranceSelected()
    ensures SelectBestResult(Some(FranceReply), [France]) == Some(Selected("France", "france.example/capital"))
  {
    var reply := FranceReply;
    assert reply[1] != Title.Name()[1];
    ReplyLinesOfOne(reply);
    UnparsableReplyFallsBack(reply, [France]);
  }

  /** The question about the capital of France, with a selection reply that names no field: the
      first result is read and the search is recorded with it. */
  lemma CapitalOfFrance(page: string, answer: Stream, now: string)
    requires !AllSpace(page)
    ensures var r := RunPipeline(DefaultConfig, FranceQuestion, FranceServices(page, answer, now), []);
      && r.outcome == Answered(StreamedAnswer(answer))
      && r.history == [HistoryEntry(now, FranceQuestion, FranceQuery, Selected("France", "france.example/capital"))]
  {
    var services := FranceServices(page, answer, now);
    var selected := Selected("France", "france.example/capital");
    FranceReachesRead(page, answer, now);
    PageContentBounded(services.page);
    var r := ReadAndAnswer(FranceQuestion, FranceQuery, [France], selected, PageContent(services.page), services, []);
    var entry := HistoryEntry(now, FranceQuestion, FranceQuery, selected);
    assert r.recorded == Some(entry);
    assert AppendEntry([], entry) == [entry];
  }

  /** The example run gets as far as reading the first result's page. */
  lemma FranceReachesRead(page: string, answer: Stream, now: string)
    ensures var services := FranceServices(page, answer, now);
      RunPipeline(DefaultConfig, FranceQuestion, services, [])
      == ReadAndAnswer(FranceQuestion, FranceQuery, [France], Selected("France", "france.example/capital"),
                       PageContent(services.page), services, [])
  {
    var services := FranceServices(page, answer, now);
    var selected := Selected("France", "france.example/capital");
    FranceSearch(page, answer, now);
    FranceSelected();
    assert FranceQuery != [];
    assert SelectAndRead(FranceQuestion, FranceQuery, [France], Some(selected), services, [])
        == ReadAndAnswer(FranceQuestion, FranceQuery, [France], selected, PageContent(services.page), services, []);
  }

  /** What a line typed at the interactive prompt means. */
  datatype Command = Blank | Quit | ShowHistory | ShowConfig | Ask(question: string)

  /** The words that end an interactive session. */
  const QuitWords := ["quit", "exit", "q"]

  /** The interactive prompt's reading of a line: stripped, empty lines skipped, and the command
      words recognised in any letter case; anything else is a question. */
  function Classify(line: string): (c: Command)
    ensures c == Blank <==> AllSpace(line)
    ensures c == Quit <==> LowerAscii(Strip(line)) in QuitWords
    ensures c == ShowHistory <==> LowerAscii(Strip(line)) == "history"
    ensures c == ShowConfig <==> LowerAscii(Strip(line)) == "config"
    ensures c.Ask? ==> c.question == Strip(line) && c.question != [] && Stripped(c.question)
  {
    var question := Strip(line);
    if question == [] then Blank
    else
      CommandWordsDistinct();
      var word := LowerAscii(question);
      if word in QuitWords then Quit
      else if word == "history" then ShowHistory
      else if word == "config" then ShowConfig
      else Ask(question)
  }

  /** The command words are different words: their lengths already differ. */
  lemma CommandWordsDistinct()
    ensures "history" !in QuitWords && "config" !in QuitWords && "history" != "config"
  {
    assert |"history"| == 7 && |"config"| == 6;
    assert forall w :: w in QuitWords ==> |w| <= 4;
  }

  /** One line typed at the prompt, and what the services do if it starts a run. */
  datatype Turn = Turn(line: string, services: Services)

  datatype SessionEnd = SessionEnd(runs: seq<Run>, history: seq<HistoryEntry>)

  /** `interactive_search`: lines are read until a quit word, and each question starts a fresh
      run on the history the previous runs left. The session also ends when the given lines run
      out; the assistant itself has no such exit (see the README). */
  function Session(config: Config, turns: seq<Turn>, history: seq<HistoryEntry>): (r: SessionEnd)
    ensures |r.runs| <= |turns|
    ensures r.history == AppendAll(history, Recorded(r.runs))
    decreases |turns|
  {
    if turns == [] then SessionEnd([], history)
    else
      match Classify(turns[0].line)
      case Quit => SessionEnd([], history)
      case Ask(question) =>
        var run := RunPipeline(config, question, turns[0].services, history);
        var rest := Session(config, turns[1..], run.history);
        SessionStep(history, run, rest);
        SessionEnd([run] + rest.runs, rest.history)
      case _ => Session(config, turns[1..], history)
  }

  /** The entries the runs recorded, in the order of the runs. */
  function Recorded(runs: seq<Run>): seq<HistoryEntry> {
    if runs == [] then []
    else (if runs[0].recorded.Some? then [runs[0].recorded.value] else []) + Recorded(runs[1..])
  }

  /** A run followed by the rest of the session appends what the run recorded, then what the
      rest recorded. */
  lemma SessionStep(history: seq<HistoryEntry>, run: Run, rest: SessionEnd)
    requires run.recorded.None? ==> run.history == history
    requires run.recorded.Some? ==> run.history == AppendEntry(history, run.recorded.value)
    requires rest.history == AppendAll(run.history, Recorded(rest.runs))
    ensures rest.history == AppendAll(history, Recorded([run] + rest.runs))
  {
    RecordedCons(run, rest.runs);
    if run.recorded.Some? {
      AppendAllCons(history, run.recorded.value, Recorded(rest.runs));
    } else {
      assert [] + Recorded(rest.runs) == Recorded(rest.runs);
    }
  }

  lemma RecordedCons(run: Run, runs: seq<Run>)
    ensures Recorded([run] + runs) == (if run.recorded.Some? then [run.recorded.value] else []) + Recorded(runs)
  {
    assert ([run] + runs)[1..] == runs;
  }

  /** Over a whole interactive session the history ends as the last 50 of the old entries followed
      by every search the session recorded. */
  lemma SessionHistoryWindow(config: Config, turns: seq<Turn>, history: seq<HistoryEntry>)
    ensures var r := Session(config, turns, history);
      Recorded(r.runs) != [] ==> r.history == KeepLast(history + Recorded(r.runs), MaxHistory)
  {
    var r := Session(config, turns, history);
    if Recorded(r.runs) != [] {
      AppendAllKeepsLast(history, Recorded(r.runs));
    }
  }
}
