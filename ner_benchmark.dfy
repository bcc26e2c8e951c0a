/** One case of the benchmark of the entity-recognition and retrieval
    pipeline: the names the model extracted are located in the request and
    snapped to the player and team catalogs, and the resulting dictionaries
    are compared with the expected ones. */
module NerRetrievalBenchmark {
  import opened PyStr
  import opened PyDict
  import opened Outcomes
  import opened NerRetrieval

  /** A benchmark question with what the pipeline should find in it. */
  datatype TestCase = TestCase(
    request: string,
    expectedRawTeams: seq<string>,
    expectedRawPlayers: seq<string>,
    expectedDbTeams: Dict<string, string>,
    expectedDbPlayers: Dict<string, string>)

  /** A test case together with what the pipeline computed for it. */
  datatype TestCaseResult = TestCaseResult(
    request: string,
    expectedRawTeams: seq<string>,
    expectedRawPlayers: seq<string>,
    expectedDbTeams: Dict<string, string>,
    expectedDbPlayers: Dict<string, string>,
    computedRawTeams: seq<string>,
    computedRawPlayers: seq<string>,
    computedDbTeams: Dict<string, string>,
    computedDbPlayers: Dict<string, string>)

  /** `is_correct`: both dictionaries equal their expected counterparts.
      Python compares dictionaries as sets of entries, so the order of the
      keys plays no part. */
  predicate IsCorrect(r: TestCaseResult): (b: bool)
    ensures b <==>
      && (forall s :: s in r.expectedDbTeams.items <==> s in r.computedDbTeams.items)
      && (forall s :: s in r.expectedDbTeams.items ==> r.expectedDbTeams.items[s] == r.computedDbTeams.items[s])
      && (forall s :: s in r.expectedDbPlayers.items <==> s in r.computedDbPlayers.items)
      && (forall s :: s in r.expectedDbPlayers.items ==> r.expectedDbPlayers.items[s] == r.computedDbPlayers.items[s])
  {
    && r.expectedDbTeams.items == r.computedDbTeams.items
    && r.expectedDbPlayers.items == r.computedDbPlayers.items
  }

  /** The closest catalog name of `s`, for a catalog that is not empty. */
  function Snap(ratio: Ratio, catalog: seq<string>, s: string): (r: string)
    requires catalog != []
    ensures Ok(r) == ClosestName(ratio, s, catalog)
  {
    ClosestName(ratio, s, catalog).value
  }

  /** The pairs `(s, closest(s))` of the dict comprehension, generated left to
      right; the first failing lookup raises. */
  function ResolveItems(ratio: Ratio, spans: seq<string>, catalog: seq<string>): (r: Result<seq<(string, string)>>)
    ensures r.Err? <==> spans != [] && catalog == []
    ensures r.Err? ==> r.error == EmptyCandidateSet
    ensures r.Ok? ==> |r.value| == |spans|
    ensures r.Ok? ==> forall k :: 0 <= k < |spans| ==> r.value[k] == (spans[k], Snap(ratio, catalog, spans[k]))
  {
    if spans == [] then Ok([])
    else
      match ClosestName(ratio, spans[0], catalog)
      case Err(e) => Err(e)
      case Ok(c) =>
        match ResolveItems(ratio, spans[1..], catalog)
        case Err(e) => Err(e)
        case Ok(rest) =>
          Ok([(spans[0], c)] + rest)
  }

  /** `{s: closest(s) for s in spans}`: it raises the index error exactly
      when there is a span to look up in an empty catalog, and otherwise its
      keys are the spans. */
  function ClosestDict(ratio: Ratio, spans: seq<string>, catalog: seq<string>): (r: Result<Dict<string, string>>)
    ensures r.Err? <==> spans != [] && catalog == []
    ensures r.Err? ==> r.error == EmptyCandidateSet
    ensures r.Ok? ==> Valid(r.value) && forall s :: s in r.value.items <==> s in spans
  {
    match ResolveItems(ratio, spans, catalog)
    case Err(e) => Err(e)
    case Ok(items) =>
      assert Firsts(items) == spans;
      Ok(FromItems(items))
  }

  /** The dictionary holds one entry per distinct span, in order of first
      occurrence, and maps it to its closest catalog name. */
  lemma ClosestDictEntries(ratio: Ratio, spans: seq<string>, catalog: seq<string>)
    requires spans != [] ==> catalog != []
    ensures ClosestDict(ratio, spans, catalog).Ok?
    ensures var d := ClosestDict(ratio, spans, catalog).value;
      && d.keys == FirstOccurrences(spans)
      && d.items == (map s | s in spans :: Snap(ratio, catalog, s))
  {
    var items := ResolveItems(ratio, spans, catalog).value;
    if catalog != [] {
      FromItemsOfImages(spans, items, s => Snap(ratio, catalog, s));
    }
  }

  /** `test_single_case` after the model call: the spans are recovered in the
      request, the player dictionary is built, then the team dictionary. */
  function TestSingleCase(ratio: Ratio, tc: TestCase, ner: PlayersAndTeams,
                          playerCatalog: seq<string>, teamCatalog: seq<string>): (r: Result<TestCaseResult>)
    ensures r.Err? <==> (ner.players != [] && playerCatalog == []) || (ner.teams != [] && teamCatalog == [])
    ensures r.Err? ==> r.error == EmptyCandidateSet
    ensures r.Ok? ==>
      && r.value.request == tc.request
      && r.value.expectedRawTeams == tc.expectedRawTeams
      && r.value.expectedRawPlayers == tc.expectedRawPlayers
      && r.value.expectedDbTeams == tc.expectedDbTeams
      && r.value.expectedDbPlayers == tc.expectedDbPlayers
      && r.value.computedRawPlayers == RecoverSpans(tc.request, ner.players)
      && r.value.computedRawTeams == RecoverSpans(tc.request, ner.teams)
  {
    var spans := RecoverAll(tc.request, ner);
    match ClosestDict(ratio, spans.players, playerCatalog)
    case Err(e) => Err(e)
    case Ok(players) =>
      match ClosestDict(ratio, spans.teams, teamCatalog)
      case Err(e) => Err(e)
      case Ok(teams) =>
        Ok(TestCaseResult(tc.request, tc.expectedRawTeams, tc.expectedRawPlayers,
                          tc.expectedDbTeams, tc.expectedDbPlayers,
                          spans.teams, spans.players, teams, players))
  }

  /** A case is judged correct exactly when each expected dictionary maps the
      recovered spans, and nothing else, to their closest catalog names. */
  lemma TestSingleCaseCorrect(ratio: Ratio, tc: TestCase, ner: PlayersAndTeams,
                              playerCatalog: seq<string>, teamCatalog: seq<string>)
    requires ner.players != [] ==> playerCatalog != []
    requires ner.teams != [] ==> teamCatalog != []
    ensures TestSingleCase(ratio, tc, ner, playerCatalog, teamCatalog).Ok?
    ensures var r := TestSingleCase(ratio, tc, ner, playerCatalog, teamCatalog).value;
      IsCorrect(r) <==>
        && tc.expectedDbPlayers.items == (map s | s in r.computedRawPlayers :: Snap(ratio, playerCatalog, s))
        && tc.expectedDbTeams.items == (map s | s in r.computedRawTeams :: Snap(ratio, teamCatalog, s))
  {
    var spans := RecoverAll(tc.request, ner);
    ClosestDictEntries(ratio, spans.players, playerCatalog);
    ClosestDictEntries(ratio, spans.teams, teamCatalog);
  }

  /** Every value of the computed dictionaries is a catalog name. */
  lemma TestSingleCaseValuesInCatalog(ratio: Ratio, tc: TestCase, ner: PlayersAndTeams,
                                      playerCatalog: seq<string>, teamCatalog: seq<string>)
    requires ner.players != [] ==> playerCatalog != []
    requires ner.teams != [] ==> teamCatalog != []
    ensures TestSingleCase(ratio, tc, ner, playerCatalog, teamCatalog).Ok?
    ensures var r := TestSingleCase(ratio, tc, ner, playerCatalog, teamCatalog).value;
      && (forall s :: s in r.computedDbPlayers.items ==> r.computedDbPlayers.items[s] in playerCatalog)
      && (forall s :: s in r.computedDbTeams.items ==> r.computedDbTeams.items[s] in teamCatalog)
  {
    var spans := RecoverAll(tc.request, ner);
    var players := ResolveItems(ratio, spans.players, playerCatalog).value;
    var teams := ResolveItems(ratio, spans.teams, teamCatalog).value;
    forall s | s in FromItems(players).items ensures FromItems(players).items[s] in playerCatalog {
      FromItemsValueSource(players, s);
      var i := LastIndex(players, s);
      assert Ok(players[i].1) == ClosestName(ratio, spans.players[i], playerCatalog);
    }
    forall s | s in FromItems(teams).items ensures FromItems(teams).items[s] in teamCatalog {
      FromItemsValueSource(teams, s);
      var i := LastIndex(teams, s);
      assert Ok(teams[i].1) == ClosestName(ratio, spans.teams[i], teamCatalog);
    }
  }
}
