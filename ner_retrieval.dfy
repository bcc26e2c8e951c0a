/** Players and teams named in a question: the spans recovered in the text for
    the names a language model extracted, their snapping to the closest
    catalog name, and the rewriting of the question with the catalog
    spellings.  The model output, the catalogs and the similarity ratio of
    `difflib` are parameters. */
module NerRetrieval {
  import opened PyStr
  import opened PyDict
  import opened Outcomes

  /** A list of players and a list of teams. */
  datatype PlayersAndTeams = PlayersAndTeams(players: seq<string>, teams: seq<string>)

  // ---------------------------------------------------------------------------
  // difflib.get_close_matches(word, possibilities, n=1, cutoff=0)

  /** The similarity `ratio(word, candidate)` difflib assigns to a candidate. */
  type Ratio = (string, string) -> real

  /** The one property of the ratio the model relies on: a candidate equal to
      the word scores strictly higher than any other candidate. */
  ghost predicate ExactMatchScoresHighest(ratio: Ratio)
  {
    forall word, x :: x != word ==> ratio(word, x) < ratio(word, word)
  }

  /** The tuple `(s1, x1)` is greater than `(s2, x2)` in Python's order: by
      score first, then by the string. */
  predicate Beats(s1: real, x1: string, s2: real, x2: string)
  {
    s1 > s2 || (s1 == s2 && StrLess(x2, x1))
  }

  /** A candidate `x` does not outrank `r` for `word`. */
  predicate NotAbove(ratio: Ratio, word: string, x: string, r: string)
  {
    !Beats(ratio(word, x), x, ratio(word, r), r)
  }

  /** Outranking a candidate means ranking at least as high. */
  lemma BeatsIsAbove(ratio: Ratio, word: string, a: string, b: string)
    requires Beats(ratio(word, a), a, ratio(word, b), b)
    ensures NotAbove(ratio, word, b, a)
  {
    if ratio(word, a) == ratio(word, b) {
      StrLessAsymmetric(b, a);
    }
  }

  /** Ranking at least as high is transitive. */
  lemma NotAboveTransitive(ratio: Ratio, word: string, a: string, b: string, c: string)
    requires NotAbove(ratio, word, a, b) && NotAbove(ratio, word, b, c)
    ensures NotAbove(ratio, word, a, c)
  {
    if ratio(word, a) == ratio(word, c) {
      StrNotLessTransitive(a, b, c);
    }
  }

  /** `max` over the scored candidates, scanning `rest` left to right with
      `best` the greatest seen so far; a later candidate replaces it only if
      it is strictly greater. */
  function MaxFrom(ratio: Ratio, word: string, best: string, rest: seq<string>): (r: string)
    ensures r == best || r in rest
    ensures NotAbove(ratio, word, best, r)
    ensures forall x :: x in rest ==> NotAbove(ratio, word, x, r)
    decreases |rest|
  {
    if rest == [] then
      StrLessIrreflexive(best);
      best
    else
      var x := rest[0];
      assert forall y :: y in rest ==> y == x || y in rest[1..];
      if Beats(ratio(word, x), x, ratio(word, best), best) then
        var r := MaxFrom(ratio, word, x, rest[1..]);
        BeatsIsAbove(ratio, word, x, best);
        NotAboveTransitive(ratio, word, best, x, r);
        r
      else
        var r := MaxFrom(ratio, word, best, rest[1..]);
        NotAboveTransitive(ratio, word, x, best, r);
        r
  }

  /** `get_close_matches(word, possibilities, n=1, cutoff=0)`: every candidate
      passes the cutoff, and the single best one is the greatest
      `(ratio, candidate)` tuple; the result is empty only when there is no
      candidate. */
  function GetCloseMatch(ratio: Ratio, word: string, possibilities: seq<string>): (r: Option<string>)
    ensures r.None? <==> possibilities == []
    ensures r.Some? ==> r.value in possibilities
    ensures r.Some? ==> forall x :: x in possibilities ==> NotAbove(ratio, word, x, r.value)
  {
    if possibilities == [] then None
    else
      assert forall y :: y in possibilities ==> y == possibilities[0] || y in possibilities[1..];
      Some(MaxFrom(ratio, word, possibilities[0], possibilities[1..]))
  }

  /** A candidate equal to the word is the match. */
  lemma GetCloseMatchExact(ratio: Ratio, word: string, possibilities: seq<string>)
    requires ExactMatchScoresHighest(ratio)
    requires word in possibilities
    ensures GetCloseMatch(ratio, word, possibilities) == Some(word)
  {
    var r := GetCloseMatch(ratio, word, possibilities).value;
    assert NotAbove(ratio, word, word, r);
  }

  // ---------------------------------------------------------------------------
  // get_closest_player_name / get_closest_team_name

  /** `[p.lower() for p in names]`. */
  function LowerAll(names: seq<string>): seq<string>
  {
    seq(|names|, i requires 0 <= i < |names| => Lower(names[i]))
  }

  /** The pairs `(p.lower(), p)` of the lowercase-to-original comprehension. */
  function LowerPairs(names: seq<string>): seq<(string, string)>
  {
    seq(|names|, i requires 0 <= i < |names| => (Lower(names[i]), names[i]))
  }

  /** `{p.lower(): p for p in names}`. */
  function LowerToOriginal(names: seq<string>): Dict<string, string>
  {
    FromItems(LowerPairs(names))
  }

  /** The catalog name closest to `name`: the best close match among the
      lowercased catalog, mapped back to an original spelling.  An empty
      catalog makes `[0]` raise. */
  function ClosestName(ratio: Ratio, name: string, names: seq<string>): (r: Result<string>)
    ensures r.Err? <==> names == []
    ensures r.Err? ==> r.error == EmptyCandidateSet
    ensures r.Ok? ==> r.value in names
  {
    match GetCloseMatch(ratio, Lower(name), LowerAll(names))
    case None => Err(EmptyCandidateSet)
    case Some(m) =>
      LowerToOriginalSource(names, m);
      Ok(LowerToOriginal(names).items[m])
  }

  /** The closest name is a best match: no catalog name's lowercase form
      outranks its lowercase form, and it is the last catalog name with that
      lowercase form. */
  lemma ClosestNameIsBest(ratio: Ratio, name: string, names: seq<string>)
    requires names != []
    ensures var r := ClosestName(ratio, name, names).value;
      && (forall n :: n in names ==> NotAbove(ratio, Lower(name), Lower(n), Lower(r)))
      && 0 <= LastIndex(LowerPairs(names), Lower(r))
      && names[LastIndex(LowerPairs(names), Lower(r))] == r
  {
    var m := GetCloseMatch(ratio, Lower(name), LowerAll(names)).value;
    LowerToOriginalSource(names, m);
    LowerAllMembers(names);
  }

  /** Every lowercase catalog name maps back to a catalog name of that
      lowercase form: the last one that has it. */
  lemma LowerToOriginalSource(names: seq<string>, m: string)
    requires m in LowerAll(names)
    ensures m in LowerToOriginal(names).items
    ensures var v := LowerToOriginal(names).items[m];
      var i := LastIndex(LowerPairs(names), m);
      0 <= i && names[i] == v && Lower(v) == m
  {
    var pairs := LowerPairs(names);
    assert Firsts(pairs) == LowerAll(names);
    FromItemsValueSource(pairs, m);
  }

  /** The lowercase form of each catalog name is among the candidates. */
  lemma LowerAllMembers(names: seq<string>)
    ensures forall n :: n in names ==> Lower(n) in LowerAll(names)
  {
    forall n | n in names ensures Lower(n) in LowerAll(names) {
      var k :| 0 <= k < |names| && names[k] == n;
      assert LowerAll(names)[k] == Lower(n);
    }
  }

  /** The lookup is case-insensitive: only the lowercase form of the name
      matters, and looking up the lowercased name gives the same answer. */
  lemma ClosestNameCaseInsensitive(ratio: Ratio, a: string, b: string, names: seq<string>)
    requires Lower(a) == Lower(b)
    ensures ClosestName(ratio, a, names) == ClosestName(ratio, b, names)
    ensures ClosestName(ratio, Lower(a), names) == ClosestName(ratio, a, names)
  {
    LowerIdempotent(a);
  }

  /** A name equal to a catalog name up to case is snapped to the catalog's
      spelling; when several catalog names share that lowercase form, the
      last one wins, as the dict comprehension overwrites earlier entries. */
  lemma ClosestNameExactMatch(ratio: Ratio, name: string, names: seq<string>)
    requires ExactMatchScoresHighest(ratio)
    requires Lower(name) in LowerAll(names)
    ensures ClosestName(ratio, name, names).Ok?
    ensures Lower(ClosestName(ratio, name, names).value) == Lower(name)
    ensures 0 <= LastIndex(LowerPairs(names), Lower(name))
    ensures ClosestName(ratio, name, names).value == names[LastIndex(LowerPairs(names), Lower(name))]
  {
    var pairs := LowerPairs(names);
    assert Firsts(pairs) == LowerAll(names);
    GetCloseMatchExact(ratio, Lower(name), LowerAll(names));
    FromItemsValueSource(pairs, Lower(name));
  }

  /** A catalog whose names have pairwise different lowercase forms maps each
      of its names to itself. */
  lemma ClosestNameOfCatalogName(ratio: Ratio, name: string, names: seq<string>)
    requires ExactMatchScoresHighest(ratio)
    requires name in names
    requires forall i, j :: 0 <= i < |names| && 0 <= j < |names| && Lower(names[i]) == Lower(names[j]) ==> names[i] == names[j]
    ensures ClosestName(ratio, name, names) == Ok(name)
  {
    var k :| 0 <= k < |names| && names[k] == name;
    assert LowerAll(names)[k] == Lower(name);
    ClosestNameExactMatch(ratio, name, names);
  }

  /** "lebron james" is snapped to "LeBron James". */
  lemma ClosestPlayerExample(ratio: Ratio)
    requires ExactMatchScoresHighest(ratio)
    ensures ClosestName(ratio, "lebron james", ["LeBron James", "Stephen Curry", "Kevin Durant", "James Harden"])
         == Ok("LeBron James")
  {
    var names := ["LeBron James", "Stephen Curry", "Kevin Durant", "James Harden"];
    assert Lower("lebron james") == Lower(names[0]);
    assert LowerAll(names)[0] == Lower("lebron james");
    ClosestNameExactMatch(ratio, "lebron james", names);
    assert Lower(names[1])[0] != Lower("lebron james")[0];
    assert Lower(names[2])[0] != Lower("lebron james")[0];
    assert Lower(names[3])[0] != Lower("lebron james")[0];
  }

  // ---------------------------------------------------------------------------
  // Span recovery

  /** `q[q.lower().find(p.lower()) : q.lower().find(p.lower()) + len(p)]`:
      the span of the text at the first case-insensitive occurrence of the
      name.  When there is none, `find` gives -1 and the slice `q[-1:len(p)-1]`
      is empty, or the text's last character when the name is longer than a
      non-empty text. */
  function RecoverSpan(text: string, p: string): (r: string)
    ensures Contains(Lower(text), Lower(p)) ==>
      var i := Find(Lower(text), Lower(p));
      i + |p| <= |text| && r == text[i..i + |p|] && Lower(r) == Lower(p)
    ensures !Contains(Lower(text), Lower(p)) ==>
      r == if 0 < |text| < |p| then [text[|text| - 1]] else []
  {
    var i := Find(Lower(text), Lower(p));
    var r := Slice(text, i, i + |p|);
    if i != -1 then
      LowerSlice(text, i, i + |p|);
      r
    else
      r
  }

  /** The recovered span sits at the first place where the text matches the
      name up to case. */
  lemma RecoverSpanFirst(text: string, p: string, j: nat)
    requires Contains(Lower(text), Lower(p))
    requires j < Find(Lower(text), Lower(p))
    ensures j + |p| <= |text| ==> Lower(text[j..j + |p|]) != Lower(p)
  {
    if j + |p| <= |text| {
      LowerSlice(text, j, j + |p|);
      assert !OccursAt(Lower(text), Lower(p), j);
    }
  }

  /** The list comprehension over the model's names: one span per name, in
      the same order. */
  function RecoverSpans(text: string, names: seq<string>): (r: seq<string>)
    ensures |r| == |names|
    ensures forall k :: 0 <= k < |names| && Contains(Lower(text), Lower(names[k])) ==>
      Lower(r[k]) == Lower(names[k]) && OccursAt(text, r[k], Find(Lower(text), Lower(names[k])))
    ensures forall k :: 0 <= k < |names| && !Contains(Lower(text), Lower(names[k])) ==> |r[k]| <= 1
  {
    seq(|names|, k requires 0 <= k < |names| => RecoverSpan(text, names[k]))
  }

  /** The spans recovered for both lists. */
  function RecoverAll(text: string, ner: PlayersAndTeams): (r: PlayersAndTeams)
    ensures |r.players| == |ner.players| && |r.teams| == |ner.teams|
  {
    PlayersAndTeams(RecoverSpans(text, ner.players), RecoverSpans(text, ner.teams))
  }

  // ---------------------------------------------------------------------------
  // replace_names_in_text

  /** The text after `text = text.replace(s, closest(s))` for each span in
      order; the lookup raises before the replacement when the catalog is
      empty. */
  function SubstituteAll(ratio: Ratio, text: string, spans: seq<string>, names: seq<string>): Result<string>
  {
    if spans == [] then Ok(text)
    else
      var n := |spans| - 1;
      match SubstituteAll(ratio, text, spans[..n], names)
      case Err(e) => Err(e)
      case Ok(t) =>
        match ClosestName(ratio, spans[n], names)
        case Err(e) => Err(e)
        case Ok(c) => Ok(Replace(t, spans[n], c))
  }

  /** `replace_names_in_text` after the model call: spans recovered in the
      original text, player substitutions first, then team substitutions. */
  function NormalizedText(ratio: Ratio, text: string, ner: PlayersAndTeams,
                          playerNames: seq<string>, teamNames: seq<string>): Result<string>
  {
    var spans := RecoverAll(text, ner);
    match SubstituteAll(ratio, text, spans.players, playerNames)
    case Err(e) => Err(e)
    case Ok(t) => SubstituteAll(ratio, t, spans.teams, teamNames)
  }

  /** One loop of `replace_names_in_text`: `text` is rewritten span by span,
      and a failing lookup ends the loop with its exception. */
  method SubstituteSpans(ratio: Ratio, text: string, spans: seq<string>, names: seq<string>)
    returns (r: Result<string>)
    ensures r == SubstituteAll(ratio, text, spans, names)
  {
    var t := text;
    for i := 0 to |spans|
      invariant SubstituteAll(ratio, text, spans[..i], names) == Ok(t)
    {
      assert spans[..i + 1][..i] == spans[..i];
      var c := ClosestName(ratio, spans[i], names);
      if c.Err? {
        SubstituteAllFails(ratio, text, spans, names);
        return Err(c.error);
      }
      t := Replace(t, spans[i], c.value);
    }
    assert spans[..|spans|] == spans;
    return Ok(t);
  }

  /** `replace_names_in_text` after the model call: the spans are recovered
      in the original text, then the player loop runs, then the team loop. */
  method ReplaceNamesInText(ratio: Ratio, text: string, ner: PlayersAndTeams,
                            playerNames: seq<string>, teamNames: seq<string>) returns (r: Result<string>)
    ensures r == NormalizedText(ratio, text, ner, playerNames, teamNames)
  {
    var spans := RecoverAll(text, ner);
    r := SubstituteSpans(ratio, text, spans.players, playerNames);
    if r.Ok? {
      r := SubstituteSpans(ratio, r.value, spans.teams, teamNames);
    }
  }

  /** Substitution fails exactly when there is a span to look up in an empty
      catalog. */
  lemma {:induction false} SubstituteAllFails(ratio: Ratio, text: string, spans: seq<string>, names: seq<string>)
    ensures SubstituteAll(ratio, text, spans, names).Err? <==> spans != [] && names == []
    ensures SubstituteAll(ratio, text, spans, names).Err? ==>
      SubstituteAll(ratio, text, spans, names).error == EmptyCandidateSet
  {
    if spans != [] {
      SubstituteAllFails(ratio, text, spans[..|spans| - 1], names);
    }
  }

  /** The rewriting fails exactly when the model named a player while the
      player catalog is empty, or a team while the team catalog is empty. */
  lemma NormalizedTextFails(ratio: Ratio, text: string, ner: PlayersAndTeams,
                            playerNames: seq<string>, teamNames: seq<string>)
    ensures NormalizedText(ratio, text, ner, playerNames, teamNames).Err?
        <==> (ner.players != [] && playerNames == []) || (ner.teams != [] && teamNames == [])
  {
    var spans := RecoverAll(text, ner);
    SubstituteAllFails(ratio, text, spans.players, playerNames);
    match SubstituteAll(ratio, text, spans.players, playerNames)
    case Err(_) =>
    case Ok(t) => SubstituteAllFails(ratio, t, spans.teams, teamNames);
  }

  /** Spans that are already their own closest name leave the text as it is,
      as replacing a string by itself changes nothing. */
  lemma {:induction false} SubstituteAllIdentity(ratio: Ratio, text: string, spans: seq<string>, names: seq<string>)
    requires forall k :: 0 <= k < |spans| ==> ClosestName(ratio, spans[k], names) == Ok(spans[k])
    ensures SubstituteAll(ratio, text, spans, names) == Ok(text)
  {
    if spans != [] {
      var n := |spans| - 1;
      SubstituteAllIdentity(ratio, text, spans[..n], names);
      ReplaceSelf(text, spans[n]);
    }
  }

  /** When every recovered span is already its closest catalog name, the text
      comes back unchanged; in particular when the model named nobody. */
  lemma NormalizedTextFixpoint(ratio: Ratio, text: string, ner: PlayersAndTeams,
                               playerNames: seq<string>, teamNames: seq<string>)
    requires var spans := RecoverAll(text, ner);
      && (forall k :: 0 <= k < |spans.players| ==> ClosestName(ratio, spans.players[k], playerNames) == Ok(spans.players[k]))
      && (forall k :: 0 <= k < |spans.teams| ==> ClosestName(ratio, spans.teams[k], teamNames) == Ok(spans.teams[k]))
    ensures NormalizedText(ratio, text, ner, playerNames, teamNames) == Ok(text)
  {
    var spans := RecoverAll(text, ner);
    SubstituteAllIdentity(ratio, text, spans.players, playerNames);
    SubstituteAllIdentity(ratio, text, spans.teams, teamNames);
  }

  /** A question whose recovered spans are spelled as in catalogs with
      distinct lowercase forms comes back unchanged. */
  lemma NormalizedTextCanonical(ratio: Ratio, text: string, ner: PlayersAndTeams,
                                playerNames: seq<string>, teamNames: seq<string>)
    requires ExactMatchScoresHighest(ratio)
    requires forall i, j :: 0 <= i < |playerNames| && 0 <= j < |playerNames| && Lower(playerNames[i]) == Lower(playerNames[j])
               ==> playerNames[i] == playerNames[j]
    requires forall i, j :: 0 <= i < |teamNames| && 0 <= j < |teamNames| && Lower(teamNames[i]) == Lower(teamNames[j])
               ==> teamNames[i] == teamNames[j]
    requires forall s :: s in RecoverAll(text, ner).players ==> s in playerNames
    requires forall s :: s in RecoverAll(text, ner).teams ==> s in teamNames
    ensures NormalizedText(ratio, text, ner, playerNames, teamNames) == Ok(text)
  {
    var spans := RecoverAll(text, ner);
    forall k | 0 <= k < |spans.players|
      ensures ClosestName(ratio, spans.players[k], playerNames) == Ok(spans.players[k])
    {
      ClosestNameOfCatalogName(ratio, spans.players[k], playerNames);
    }
    forall k | 0 <= k < |spans.teams|
      ensures ClosestName(ratio, spans.teams[k], teamNames) == Ok(spans.teams[k])
    {
      ClosestNameOfCatalogName(ratio, spans.teams[k], teamNames);
    }
    NormalizedTextFixpoint(ratio, text, ner, playerNames, teamNames);
  }

  /** A player name that does not occur in the question, and is no longer
      than it, recovers as the empty span; replacing the empty string inserts
      the closest name before every character and at the end. */
  lemma NormalizedTextMissingName(ratio: Ratio, text: string, p: string,
                                  playerNames: seq<string>, teamNames: seq<string>)
    requires !Contains(Lower(text), Lower(p)) && |p| <= |text|
    requires playerNames != []
    ensures var c := ClosestName(ratio, "", playerNames).value;
      && NormalizedText(ratio, text, PlayersAndTeams([p], []), playerNames, teamNames) == Ok(Replace(text, "", c))
      && |Replace(text, "", c)| == |text| + (|text| + 1) * |c|
  {
    var c := ClosestName(ratio, "", playerNames).value;
    var spans := RecoverAll(text, PlayersAndTeams([p], []));
    assert RecoverSpan(text, p) == "";
    assert spans.players == [""] && spans.teams == [];
    assert [""][..0] == [];
    assert SubstituteAll(ratio, text, [""], playerNames) == Ok(Replace(text, "", c));
    InsertEverywhereLength(text, c);
  }
}
