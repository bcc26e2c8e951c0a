/** The request-to-SQL benchmark: pulling the SQL query out of the fenced
    block of an LLM response, retrying the LLM while it answers None or "",
    and turning one benchmark case into a result record, errors included.
    The LLM is given as the sequence of its answers to successive calls, and
    the database as the outcome of running a query. */
module RequestToSqlBenchmark {
  import opened PyStr
  import opened Outcomes

  // ---------------------------------------------------------------------------
  // extract_sql_query_from_response

  /** The marker that opens the SQL block. */
  const SqlMarker: string := "```sql"

  /** The fence that closes it. */
  const Fence: string := "```"

  /** `extract_sql_query_from_response`: the text after the first "```sql"
      up to the next "```" (or to the end), or `NoSqlQueryFound`. */
  function ExtractSqlQuery(response: string): (r: Result<string>)
    ensures r.Err? <==> !Contains(response, SqlMarker)
    ensures r.Err? ==> r.error == NoSqlQueryFound
    ensures r.Ok? ==>
      var start := Find(response, SqlMarker) + |SqlMarker|;
      && OccursAt(response, SqlMarker, start - |SqlMarker|)
      && (forall j :: 0 <= j < start - |SqlMarker| ==> !OccursAt(response, SqlMarker, j))
      && start + |r.value| <= |response|
      && r.value == response[start..start + |r.value|]
      && (forall j :: start <= j < start + |r.value| ==> !OccursAt(response, Fence, j))
      && (start + |r.value| == |response| || OccursAt(response, Fence, start + |r.value|))
    ensures r.Ok? ==> !Contains(r.value, Fence)
  {
    if !Contains(response, SqlMarker) then Err(NoSqlQueryFound)
    else
      var start := Find(response, SqlMarker) + |SqlMarker|;
      SplitHeadOfSuffix(response, start, Fence);
      Ok(SplitHead(response[start..], Fence))
  }

  /** A response made of a text, an SQL block and anything after it. */
  function Fenced(before: string, query: string, after: string): string
  {
    before + SqlMarker + query + Fence + after
  }

  /** Extraction gives back the content of the first SQL block: when no
      "```sql" starts before the block and no "```" starts inside its
      content, the content is returned whatever follows the block. */
  lemma ExtractFencedBlock(before: string, query: string, after: string)
    requires forall j :: 0 <= j < |before| ==> !OccursAt(Fenced(before, query, after), SqlMarker, j)
    requires forall j :: 0 <= j < |query| ==> !OccursAt(query + Fence, Fence, j)
    ensures ExtractSqlQuery(Fenced(before, query, after)) == Ok(query)
  {
    var s := Fenced(before, query, after);
    var m := |before|;
    assert s[m..m + |SqlMarker|] == SqlMarker;
    assert OccursAt(s, SqlMarker, m);
    assert Find(s, SqlMarker) == m;
    var start := m + |SqlMarker|;
    assert s[start..] == query + Fence + after;
    BlockContentIsFenceFree(s, start, query, after);
    var r := ExtractSqlQuery(s);
    var n := |r.value|;
    assert n < |query| ==> !OccursAt(s, Fence, start + n);
    assert |query| < n ==> !OccursAt(s, Fence, start + |query|);
    assert r.value == s[start..start + |query|];
  }

  /** Inside `s`, the content of a block that starts at `start` holds no
      fence, and the fence closing it follows. */
  lemma BlockContentIsFenceFree(s: string, start: nat, query: string, after: string)
    requires start <= |s| && s[start..] == query + Fence + after
    requires forall j :: 0 <= j < |query| ==> !OccursAt(query + Fence, Fence, j)
    ensures start + |query| + |Fence| <= |s|
    ensures s[start..start + |query|] == query
    ensures forall j :: start <= j < start + |query| ==> !OccursAt(s, Fence, j)
    ensures OccursAt(s, Fence, start + |query|)
  {
    var block := query + Fence;
    assert s[start..start + |block|] == block;
    assert s[start..][..|block|] == block;
    forall j | start <= j < start + |query|
      ensures !OccursAt(s, Fence, j)
    {
      OccursAtSuffix(s, start, Fence, j - start);
      OccursAtPrefix(s[start..], |block|, Fence, j - start);
    }
    assert s[start + |query|..start + |query| + |Fence|] == block[|query|..];
  }

  /** A text without a backtick holds no marker and no fence. */
  lemma NoBacktick(before: string, query: string, after: string)
    requires '`' !in before && '`' !in query
    ensures forall j :: 0 <= j < |before| ==> !OccursAt(Fenced(before, query, after), SqlMarker, j)
    ensures forall j :: 0 <= j < |query| ==> !OccursAt(query + Fence, Fence, j)
  {
    forall j | 0 <= j < |before| ensures !OccursAt(Fenced(before, query, after), SqlMarker, j) {
      assert Fenced(before, query, after)[j] == before[j];
    }
    forall j | 0 <= j < |query| ensures !OccursAt(query + Fence, Fence, j) {
      assert (query + Fence)[j] == query[j];
    }
  }

  /** The response "Here is your SQL query:\n```sql\nSELECT ...\n```\n"
      yields the query with its surrounding newlines. */
  lemma ExtractSingleBlockExample()
    ensures ExtractSqlQuery(Fenced("Here is your SQL query:\n",
                                   "\nSELECT * FROM players " + "WHERE points_per_game > 20\n",
                                   "\n"))
         == Ok("\nSELECT * FROM players " + "WHERE points_per_game > 20\n")
  {
    var before := "Here is your SQL query:\n";
    var query := "\nSELECT * FROM players " + "WHERE points_per_game > 20\n";
    NoBacktick(before, query, "\n");
    ExtractFencedBlock(before, query, "\n");
  }

  /** Of two SQL blocks only the first one's content is returned. */
  lemma ExtractFirstOfTwoBlocksExample()
    ensures ExtractSqlQuery(Fenced("Here is your first SQL query:\n",
                                   "\nSELECT * FROM players " + "WHERE points_per_game > 20\n",
                                   "\nAnd here is another one:\n" + "```sql"
                                   + "\nSELECT * FROM teams WHERE wins > 50\n" + "```" + "\n"))
         == Ok("\nSELECT * FROM players " + "WHERE points_per_game > 20\n")
  {
    var before := "Here is your first SQL query:\n";
    var query := "\nSELECT * FROM players " + "WHERE points_per_game > 20\n";
    var after := "\nAnd here is another one:\n" + "```sql" + "\nSELECT * FROM teams WHERE wins > 50\n" + "```" + "\n";
    NoBacktick(before, query, after);
    ExtractFencedBlock(before, query, after);
  }

  // ---------------------------------------------------------------------------
  // retry_on_null

  /** What one call of the wrapped function does: return a value (None or a
      string) or raise. */
  datatype CallOutcome = Returned(value: Option<string>) | Raised(error: Error)

  /** `result not in (None, "")`: the wrapper keeps this result. */
  predicate Accepted(v: Option<string>)
  {
    v.Some? && v.value != ""
  }

  /** A call whose result the wrapper discards and retries after. */
  predicate Rejected(o: CallOutcome)
  {
    o.Returned? && !Accepted(o.value)
  }

  /** What the wrapper gives back, and how many times it called the function. */
  datatype RetryRun = RetryRun(outcome: CallOutcome, calls: nat)

  /** The wrapper from the state where `attempts` calls were rejected;
      `func(k)` is what the (k+1)-th call does. */
  function RetryFrom(nbRetry: int, func: nat -> CallOutcome, attempts: nat): RetryRun
    decreases nbRetry - attempts
  {
    if attempts >= nbRetry then RetryRun(Returned(None), attempts)
    else if Rejected(func(attempts)) then RetryFrom(nbRetry, func, attempts + 1)
    else RetryRun(func(attempts), attempts + 1)
  }

  /** `retry_on_null(nb_retry)(func)()`. */
  function Retry(nbRetry: int, func: nat -> CallOutcome): RetryRun
  {
    RetryFrom(nbRetry, func, 0)
  }

  /** The wrapper of `retry_on_null`: calls `func` while fewer than `nbRetry`
      attempts were made, returns the first result that is neither None nor
      "", lets an exception through, and returns None when every attempt
      failed.  The delay between attempts is not modelled. */
  method RetryOnNull(nbRetry: int, func: nat -> CallOutcome) returns (outcome: CallOutcome, calls: nat)
    ensures RetryRun(outcome, calls) == Retry(nbRetry, func)
  {
    var attempts: nat := 0;
    while attempts < nbRetry
      invariant Retry(nbRetry, func) == RetryFrom(nbRetry, func, attempts)
      decreases nbRetry - attempts
    {
      var result := func(attempts);
      if !Rejected(result) {
        return result, attempts + 1;
      }
      attempts := attempts + 1;
    }
    return Returned(None), attempts;
  }

  /** The wrapper returns None exactly when all `nbRetry` calls (none when
      `nbRetry <= 0`) returned None or "", after making all of them. */
  lemma RetryExhausted(nbRetry: int, func: nat -> CallOutcome)
    ensures Retry(nbRetry, func).outcome == Returned(None)
        <==> forall k :: 0 <= k < nbRetry ==> Rejected(func(k))
    ensures Retry(nbRetry, func).outcome == Returned(None)
        ==> Retry(nbRetry, func).calls == (if nbRetry < 0 then 0 else nbRetry)
  {
    RetryFromFacts(nbRetry, func, 0);
  }

  /** Otherwise the wrapper stopped at the first call that was not rejected,
      within the budget, and hands on that call's outcome unchanged. */
  lemma RetryStopsAtFirstKept(nbRetry: int, func: nat -> CallOutcome)
    ensures var run := Retry(nbRetry, func);
      run.outcome != Returned(None) ==>
        && 1 <= run.calls <= nbRetry
        && run.outcome == func(run.calls - 1)
        && !Rejected(func(run.calls - 1))
        && forall k :: 0 <= k < run.calls - 1 ==> Rejected(func(k))
    ensures Retry(nbRetry, func).outcome != Returned(Some(""))
  {
    RetryFromFacts(nbRetry, func, 0);
  }

  lemma {:induction false} RetryFromFacts(nbRetry: int, func: nat -> CallOutcome, attempts: nat)
    requires forall k :: 0 <= k < attempts ==> Rejected(func(k))
    ensures var run := RetryFrom(nbRetry, func, attempts);
      && (run.outcome == Returned(None)
          <==> forall k :: attempts <= k < nbRetry ==> Rejected(func(k)))
      && (run.outcome == Returned(None) ==> run.calls == (if nbRetry < attempts then attempts else nbRetry))
      && (run.outcome != Returned(None) ==>
            && attempts + 1 <= run.calls <= nbRetry
            && run.outcome == func(run.calls - 1)
            && !Rejected(func(run.calls - 1))
            && forall k :: 0 <= k < run.calls - 1 ==> Rejected(func(k)))
    decreases nbRetry - attempts
  {
    if attempts >= nbRetry {
    } else if Rejected(func(attempts)) {
      RetryFromFacts(nbRetry, func, attempts + 1);
    } else {
      assert !(forall k :: attempts <= k < nbRetry ==> Rejected(func(k)));
    }
  }

  // ---------------------------------------------------------------------------
  // test_single_case and is_correct

  /** `query_llm` is wrapped with `retry_on_null(nb_retry=3, ...)`. */
  const QueryLlmRetries: int := 3

  /** A JSON-like value: the rows a query returned, or a text. */
  datatype Data<R> = Rows(rows: R) | Text(text: string)

  datatype TestCase<R> = TestCase(question: string, expectedResult: Data<R>)

  datatype TestCaseResult<R> = TestCaseResult(
    question: string,
    expectedResult: Data<R>,
    computedResult: Data<R>,
    llmResponse: string,
    computedSqlQuery: string)

  /** `TestCaseResult.is_correct`: rows are only equal to rows and texts
      to texts, each compared by content. */
  predicate IsCorrect<R(==)>(r: TestCaseResult<R>): (b: bool)
    ensures b ==> (r.expectedResult.Rows? <==> r.computedResult.Rows?)
    ensures r.expectedResult.Rows? && r.computedResult.Rows? ==>
      (b <==> r.expectedResult.rows == r.computedResult.rows)
    ensures r.expectedResult.Text? && r.computedResult.Text? ==>
      (b <==> r.expectedResult.text == r.computedResult.text)
  {
    r.expectedResult == r.computedResult
  }

  /** The result recorded by the `except` clause of `test_single_case`: the
      message of the exception can be read back after the "ERROR: " prefix,
      and no query is recorded. */
  function ErrorResult<R>(tc: TestCase<R>, e: Error): (r: TestCaseResult<R>)
    ensures r.question == tc.question && r.expectedResult == tc.expectedResult
    ensures r.computedResult == Text(r.llmResponse) && r.computedSqlQuery == ""
    ensures |r.llmResponse| >= 7 && r.llmResponse[..7] == "ERROR: " && r.llmResponse[7..] == Message(e)
  {
    var text := "ERROR: " + Message(e);
    TestCaseResult(tc.question, tc.expectedResult, Text(text), text, "")
  }

  /** `test_single_case`: ask the LLM (with retries), extract the query, run
      it, and record the outcome; any exception on the way is recorded
      instead of raised.  `llm(k)` is the LLM's answer to the (k+1)-th call
      for this case's prompt, `execute` runs a query on the database. */
  function TestSingleCase<R>(tc: TestCase<R>, llm: nat -> CallOutcome, execute: string -> Result<R>): (r: TestCaseResult<R>)
    ensures r.question == tc.question && r.expectedResult == tc.expectedResult
    ensures r.computedResult.Text? ==>
      && r.computedSqlQuery == ""
      && r.llmResponse == r.computedResult.text
      && "ERROR: " <= r.llmResponse
    ensures r.computedResult.Rows? ==>
      && Retry(QueryLlmRetries, llm).outcome == Returned(Some(r.llmResponse))
      && ExtractSqlQuery(r.llmResponse) == Ok(r.computedSqlQuery)
      && execute(r.computedSqlQuery) == Ok(r.computedResult.rows)
    // Rows are recorded exactly when every stage succeeded.
    ensures var o := Retry(QueryLlmRetries, llm).outcome;
      r.computedResult.Rows? <==>
        && o.Returned? && o.value.Some?
        && ExtractSqlQuery(o.value.value).Ok?
        && execute(ExtractSqlQuery(o.value.value).value).Ok?
    // Otherwise the error of the first stage that failed is recorded.
    ensures var o := Retry(QueryLlmRetries, llm).outcome;
      o.Raised? ==> r == ErrorResult(tc, o.error)
    ensures Retry(QueryLlmRetries, llm).outcome == Returned(None) ==> r == ErrorResult(tc, NoneNotIterable)
    ensures var o := Retry(QueryLlmRetries, llm).outcome;
      o.Returned? && o.value.Some? && ExtractSqlQuery(o.value.value).Err? ==>
        r == ErrorResult(tc, NoSqlQueryFound)
    ensures var o := Retry(QueryLlmRetries, llm).outcome;
      o.Returned? && o.value.Some? && ExtractSqlQuery(o.value.value).Ok? ==>
        var q := ExtractSqlQuery(o.value.value).value;
        execute(q).Err? ==> r == ErrorResult(tc, execute(q).error)
  {
    match Retry(QueryLlmRetries, llm).outcome
    case Raised(e) => ErrorResult(tc, e)
    case Returned(None) => ErrorResult(tc, NoneNotIterable)
    case Returned(Some(response)) =>
      match ExtractSqlQuery(response)
      case Err(e) => ErrorResult(tc, e)
      case Ok(query) =>
        match execute(query)
        case Err(e) => ErrorResult(tc, e)
        case Ok(rows) => TestCaseResult(tc.question, tc.expectedResult, Rows(rows), response, query)
  }

  /** When the model answered None or "" to all three calls, the case records
      the `TypeError` that `"```sql" not in None` raises. */
  lemma TestSingleCaseAllRejected<R>(tc: TestCase<R>, llm: nat -> CallOutcome, execute: string -> Result<R>)
    requires forall k :: 0 <= k < QueryLlmRetries ==> Rejected(llm(k))
    ensures TestSingleCase(tc, llm, execute) == ErrorResult(tc, NoneNotIterable)
    ensures var t := TestSingleCase(tc, llm, execute).llmResponse;
      |t| >= 7 && t[..7] == "ERROR: " && t[7..] == "argument of type 'NoneType' is not iterable"
  {
    RetryExhausted(QueryLlmRetries, llm);
  }

  /** A case succeeds only with an answer the LLM gave within its three
      calls that holds an SQL block whose query the database ran; any other
      case records the error, and then counts as correct only when the
      expected result is that very error text. */
  lemma TestSingleCaseOutcome<R>(tc: TestCase<R>, llm: nat -> CallOutcome, execute: string -> Result<R>)
    ensures var r := TestSingleCase(tc, llm, execute);
      r.computedResult.Rows? ==>
        && (exists k :: 0 <= k < QueryLlmRetries && llm(k) == Returned(Some(r.llmResponse)))
        && r.llmResponse != ""
        && Contains(r.llmResponse, SqlMarker)
        && !Contains(r.computedSqlQuery, Fence)
    ensures var r := TestSingleCase(tc, llm, execute);
      r.computedResult.Text? ==> (IsCorrect(r) <==> tc.expectedResult == Text(r.llmResponse))
  {
    RetryStopsAtFirstKept(QueryLlmRetries, llm);
    var run := Retry(QueryLlmRetries, llm);
    if run.outcome != Returned(None) {
      assert llm(run.calls - 1) == run.outcome;
    }
  }
}
