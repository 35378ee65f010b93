/**
 * `main`: build or load the checkpoint table, look up the downloads of every
 * unresolved package in table order, and write the whole table back however
 * the loop ends. Files are strings: `existing` is the checkpoint's text, or
 * `None` when there is no checkpoint file, and the result says what the
 * file holds afterwards.
 */
module Orchestrator {
  import opened Wrappers
  import opened OrderedMap
  import opened Web
  import opened Dependents
  import opened Checkpoint

  /** What the resolution loop leaves: the table, the names it looked up, and the error that stopped it. */
  datatype Resolved = Resolved(table: seq<Row>, fetched: seq<string>, failure: Option<FetchOutcome>)

  /** The field a non-fatal outcome stores: the count, or `NA` for a 404. */
  function Settle(o: FetchOutcome): (f: Field)
    requires !IsFatal(o)
    ensures f != Unresolved
    ensures o.Downloads? ==> f == Count(o.lastMonth)
    ensures IsNotFound(o) ==> f == NotAvailable
  {
    if o.Downloads? then Count(o.lastMonth) else NotAvailable
  }

  /** `r` preceded by rows already handled and the look-ups made for them. */
  function After(done: seq<Row>, fetched: seq<string>, r: Resolved): Resolved
  {
    Resolved(done + r.table, fetched + r.fetched, r.failure)
  }

  /**
   * The resolution loop as a function of the table and the statistics
   * API: rows are visited in order; a row with a non-empty field is left
   * alone; an empty one is looked up, storing the count or `NA`, unless
   * the look-up fails otherwise, which stops the loop with that row and
   * every later row as they were.
   */
  function Resolution(t: seq<Row>, fetch: string -> FetchOutcome): Resolved
  {
    if t == [] then Resolved([], [], None)
    else if t[0].1 != Unresolved then After([t[0]], [], Resolution(t[1..], fetch))
    else
      var o := fetch(t[0].0);
      if IsFatal(o) then Resolved(t, [t[0].0], Some(o))
      else After([(t[0].0, Settle(o))], [t[0].0], Resolution(t[1..], fetch))
  }

  /** A look-up of this row stops the loop. */
  predicate Stops(row: Row, fetch: string -> FetchOutcome)
  {
    row.1 == Unresolved && IsFatal(fetch(row.0))
  }

  /** Index of the row at which the loop stops, or `|t|` when it reaches the end. */
  function StopIndex(t: seq<Row>, fetch: string -> FetchOutcome): (k: nat)
    ensures k <= |t|
    ensures forall i :: 0 <= i < k ==> !Stops(t[i], fetch)
    ensures k < |t| ==> Stops(t[k], fetch)
  {
    if t == [] || Stops(t[0], fetch) then 0 else StopIndex(t[1..], fetch) + 1
  }

  /** A row as the loop leaves it when it gets past it. */
  function Filled(row: Row, fetch: string -> FetchOutcome): Row
    requires !Stops(row, fetch)
  {
    if row.1 == Unresolved then (row.0, Settle(fetch(row.0))) else row
  }

  /** The names of the unresolved rows, in order. */
  function UnresolvedNames(t: seq<Row>): seq<string>
  {
    if t == [] then [] else (if t[0].1 == Unresolved then [t[0].0] else []) + UnresolvedNames(t[1..])
  }

  /** What `Resolution` does with a table's first row. */
  lemma {:induction false} ResolutionFirstRow(t: seq<Row>, fetch: string -> FetchOutcome)
    requires t != []
    ensures !Stops(t[0], fetch) ==>
              Resolution(t, fetch) ==
                After([Filled(t[0], fetch)], if t[0].1 == Unresolved then [t[0].0] else [], Resolution(t[1..], fetch))
    ensures Stops(t[0], fetch) ==> Resolution(t, fetch) == Resolved(t, [t[0].0], Some(fetch(t[0].0)))
  {
  }

  /** Handled rows and look-ups accumulate. */
  lemma {:induction false} AfterAfter(done: seq<Row>, fetched: seq<string>, more: seq<Row>, moreFetched: seq<string>, r: Resolved)
    ensures After(done, fetched, After(more, moreFetched, r)) == After(done + more, fetched + moreFetched, r)
  {
    assert done + (more + r.table) == (done + more) + r.table;
    assert fetched + (moreFetched + r.fetched) == (fetched + moreFetched) + r.fetched;
  }

  /** The loop of `main`: fill in empty fields in place, stopping at the first fatal error. */
  method ResolveDownloads(table: seq<Row>, fetch: string -> FetchOutcome)
    returns (rows: seq<Row>, fetched: seq<string>, failure: Option<FetchOutcome>)
    ensures Resolved(rows, fetched, failure) == Resolution(table, fetch)
  {
    rows, fetched, failure := table, [], None;
    var i := 0;
    while i < |rows|
      invariant 0 <= i <= |rows| == |table|
      invariant rows[i..] == table[i..]
      invariant Resolution(table, fetch) == After(rows[..i], fetched, Resolution(table[i..], fetch))
    {
      var (name, downloads) := rows[i];
      assert rows[i] == table[i];
      if downloads == Unresolved {
        var outcome := fetch(name);
        if IsFatal(outcome) {
          LoopStops(table, fetch, i, rows, fetched);
          fetched := fetched + [name];
          failure := Some(outcome);
          break;
        }
        ghost var before, fetchedBefore := rows, fetched;
        rows := rows[i := (name, Settle(outcome))];
        fetched := fetched + [name];
        LoopAdvances(table, fetch, i, before, fetchedBefore, rows, fetched);
      } else {
        LoopAdvances(table, fetch, i, rows, fetched, rows, fetched);
      }
      i := i + 1;
    }
    if failure.None? {
      assert rows[..i] == rows && table[i..] == [];
    }
  }

  /** One pass of the loop over a row that does not stop it keeps the loop invariant. */
  lemma {:induction false} LoopAdvances(table: seq<Row>, fetch: string -> FetchOutcome, i: nat,
                                        rows: seq<Row>, fetched: seq<string>, next: seq<Row>, nextFetched: seq<string>)
    requires i < |rows| == |table| && rows[i..] == table[i..]
    requires Resolution(table, fetch) == After(rows[..i], fetched, Resolution(table[i..], fetch))
    requires !Stops(table[i], fetch)
    requires next == rows[i := Filled(table[i], fetch)]
    requires nextFetched == fetched + (if table[i].1 == Unresolved then [table[i].0] else [])
    ensures next[i + 1..] == table[i + 1..]
    ensures Resolution(table, fetch) == After(next[..i + 1], nextFetched, Resolution(table[i + 1..], fetch))
  {
    var rest := table[i..];
    ResolutionFirstRow(rest, fetch);
    assert rest[0] == table[i] && rest[1..] == table[i + 1..];
    AfterAfter(rows[..i], fetched, [Filled(table[i], fetch)],
               if table[i].1 == Unresolved then [table[i].0] else [], Resolution(table[i + 1..], fetch));
    assert next[..i + 1] == rows[..i] + [Filled(table[i], fetch)];
    assert next[i + 1..] == rows[i + 1..];
  }

  /** A row whose look-up fails fatally ends the loop with every row from it on untouched. */
  lemma {:induction false} LoopStops(table: seq<Row>, fetch: string -> FetchOutcome, i: nat, rows: seq<Row>, fetched: seq<string>)
    requires i < |rows| == |table| && rows[i..] == table[i..]
    requires Resolution(table, fetch) == After(rows[..i], fetched, Resolution(table[i..], fetch))
    requires Stops(table[i], fetch)
    ensures Resolution(table, fetch) == Resolved(rows, fetched + [table[i].0], Some(fetch(table[i].0)))
  {
    ResolutionFirstRow(table[i..], fetch);
    assert table[i..][0] == table[i];
    assert rows[..i] + table[i..] == rows;
  }

  /** The table the loop leaves: rows before the stopping index filled in, the others unchanged. */
  lemma {:induction false} ResolutionTableByIndex(t: seq<Row>, fetch: string -> FetchOutcome)
    ensures |Resolution(t, fetch).table| == |t|
    ensures forall i :: 0 <= i < StopIndex(t, fetch) ==> Resolution(t, fetch).table[i] == Filled(t[i], fetch)
    ensures forall i :: StopIndex(t, fetch) <= i < |t| ==> Resolution(t, fetch).table[i] == t[i]
  {
    if t != [] {
      ResolutionFirstRow(t, fetch);
      if !Stops(t[0], fetch) {
        ResolutionTableByIndex(t[1..], fetch);
        var r := Resolution(t, fetch);
        var r' := Resolution(t[1..], fetch);
        assert r.table == [Filled(t[0], fetch)] + r'.table;
        forall i | 1 <= i < |t| ensures r.table[i] == r'.table[i - 1] && t[i] == t[1..][i - 1] {
        }
      }
    }
  }

  /** The loop fails exactly when it stops early, with the error of the row it stopped at. */
  lemma {:induction false} ResolutionFailureByIndex(t: seq<Row>, fetch: string -> FetchOutcome)
    ensures Resolution(t, fetch).failure ==
              if StopIndex(t, fetch) < |t| then Some(fetch(t[StopIndex(t, fetch)].0)) else None
  {
    if t != [] {
      ResolutionFirstRow(t, fetch);
      if !Stops(t[0], fetch) {
        ResolutionFailureByIndex(t[1..], fetch);
        assert StopIndex(t, fetch) == StopIndex(t[1..], fetch) + 1;
      }
    }
  }

  /** The loop looks up the unresolved names up to and including the row it stopped at. */
  lemma {:induction false} ResolutionFetchedByIndex(t: seq<Row>, fetch: string -> FetchOutcome)
    ensures Resolution(t, fetch).fetched ==
              UnresolvedNames(t[..if StopIndex(t, fetch) < |t| then StopIndex(t, fetch) + 1 else |t|])
  {
    if t != [] {
      ResolutionFirstRow(t, fetch);
      if Stops(t[0], fetch) {
        assert t[..1] == [t[0]];
        assert UnresolvedNames(t[..1]) == [t[0].0] + UnresolvedNames([]);
      } else {
        ResolutionFetchedByIndex(t[1..], fetch);
        var k' := StopIndex(t[1..], fetch);
        assert StopIndex(t, fetch) == k' + 1;
        var m := if k' < |t| - 1 then k' + 1 else |t| - 1;
        assert t[..m + 1] == [t[0]] + t[1..][..m];
        assert UnresolvedNames(t[..m + 1]) ==
               (if t[0].1 == Unresolved then [t[0].0] else []) + UnresolvedNames(t[1..][..m]);
      }
    }
  }

  /**
   * The loop row by row: with `k` the stopping index, the rows before `k`
   * are filled in, the rows from `k` on are unchanged, the error is that of
   * row `k` if there is one, and the look-ups are the unresolved names up
   * to and including row `k`, in order.
   */
  lemma {:induction false} ResolutionByIndex(t: seq<Row>, fetch: string -> FetchOutcome)
    ensures |Resolution(t, fetch).table| == |t|
    ensures forall i :: 0 <= i < StopIndex(t, fetch) ==> Resolution(t, fetch).table[i] == Filled(t[i], fetch)
    ensures forall i :: StopIndex(t, fetch) <= i < |t| ==> Resolution(t, fetch).table[i] == t[i]
    ensures Resolution(t, fetch).failure ==
              if StopIndex(t, fetch) < |t| then Some(fetch(t[StopIndex(t, fetch)].0)) else None
    ensures Resolution(t, fetch).fetched ==
              UnresolvedNames(t[..if StopIndex(t, fetch) < |t| then StopIndex(t, fetch) + 1 else |t|])
  {
    ResolutionTableByIndex(t, fetch);
    ResolutionFailureByIndex(t, fetch);
    ResolutionFetchedByIndex(t, fetch);
  }

  /**
   * The loop never adds, removes or reorders names, never touches a row
   * whose field was already set, and gives an empty field only a count or
   * `NA` from the statistics API.
   */
  lemma {:induction false} ResolutionOnlyFillsUnresolved(t: seq<Row>, fetch: string -> FetchOutcome)
    ensures Keys(Resolution(t, fetch).table) == Keys(t)
    ensures forall i :: 0 <= i < |t| && t[i].1 != Unresolved ==> Resolution(t, fetch).table[i] == t[i]
    ensures forall i :: 0 <= i < |t| && Resolution(t, fetch).table[i] != t[i] ==>
              t[i].1 == Unresolved && !IsFatal(fetch(t[i].0))
              && Resolution(t, fetch).table[i] == (t[i].0, Settle(fetch(t[i].0)))
  {
    ResolutionByIndex(t, fetch);
    var r := Resolution(t, fetch);
    assert forall i :: 0 <= i < |t| ==> r.table[i].0 == t[i].0;
    assert Keys(r.table) == Keys(t);
  }

  /** When no field is empty the loop looks nothing up and changes nothing. */
  lemma {:induction false} ResolutionIdleOnResolved(t: seq<Row>, fetch: string -> FetchOutcome)
    requires forall i :: 0 <= i < |t| ==> t[i].1 != Unresolved
    ensures Resolution(t, fetch) == Resolved(t, [], None)
  {
    if t != [] {
      ResolutionIdleOnResolved(t[1..], fetch);
      assert [t[0]] + t[1..] == t;
    }
  }

  /**
   * Without a fatal error every field ends up set, each empty one to the
   * count or `NA` its look-up gave.
   */
  lemma {:induction false} ResolutionCompleteOnSuccess(t: seq<Row>, fetch: string -> FetchOutcome)
    requires Resolution(t, fetch).failure.None?
    ensures |Resolution(t, fetch).table| == |t| && StopIndex(t, fetch) == |t|
    ensures forall i :: 0 <= i < |t| ==> Resolution(t, fetch).table[i] == Filled(t[i], fetch)
    ensures forall i :: 0 <= i < |Resolution(t, fetch).table| ==> Resolution(t, fetch).table[i].1 != Unresolved
    ensures Resolution(t, fetch).fetched == UnresolvedNames(t)
  {
    ResolutionByIndex(t, fetch);
    assert t[..|t|] == t;
  }

  /** The loop keeps a table that the file format can carry. */
  lemma {:induction false} ResolutionKeepsWellFormed(t: seq<Row>, fetch: string -> FetchOutcome)
    requires WellFormedTable(t)
    ensures WellFormedTable(Resolution(t, fetch).table)
  {
    ResolutionOnlyFillsUnresolved(t, fetch);
    var r := Resolution(t, fetch).table;
    assert forall i :: 0 <= i < |r| ==> r[i].0 == Keys(r)[i] == Keys(t)[i] == t[i].0;
  }

  datatype RunError =
    | Config(config: ConfigError)     // no API key, raised before any request
    | Malformed(problem: ParseError)  // the checkpoint could not be read
    | FetchFailed(cause: FetchOutcome) // a look-up failed with an error other than 404

  /** One run: what the checkpoint file holds afterwards, the requests made, and how the run ended. */
  datatype RunResult = RunResult(file: Option<string>, requests: seq<Request>, outcome: Outcome<RunError>)

  /** The statistics requests for a list of names, in order. */
  function DownloadRequests(names: seq<string>): (rs: seq<Request>)
    ensures |rs| == |names|
    ensures forall i :: 0 <= i < |names| ==> rs[i] == DownloadStats(names[i])
  {
    seq(|names|, i requires 0 <= i < |names| => DownloadStats(names[i]))
  }

  /** The ranked dependents `get_all_dependents` returns for the oracles' answers. */
  function Ranking(dependentsCount: int, fetchPage: int -> seq<Dependent>): seq<string>
  {
    Rank(Flatten(PageResults(NumPages(dependentsCount), fetchPage)))
  }

  /** The checkpoint text `main` reads: the existing file, or the one it writes for the ranking. */
  function CheckpointText(existing: Option<string>, dependentsCount: int,
                          fetchPage: int -> seq<Dependent>): string
  {
    if existing.Some? then existing.value
    else Serialise(InitialRows(Ranking(dependentsCount, fetchPage)))
  }

  /**
   * `main` as a function of the checkpoint text and the API oracles. The
   * statistics API's answers for unresolved rows are `fetch`; the body of
   * `try` ends in one of three ways, and `finally` writes the table in all
   * of them.
   */
  function Execution(existing: Option<string>, apiKey: Option<string>, dependentsCount: int,
                     fetchPage: int -> seq<Dependent>, fetch: string -> FetchOutcome): RunResult
  {
    if existing.None? && !HasApiKey(apiKey) then RunResult(None, [], Fail(Config(MissingApiKey)))
    else
      var n := NumPages(dependentsCount);
      var text := CheckpointText(existing, dependentsCount, fetchPage);
      var requests := if existing.Some? then [] else [DependentsInfo] + PageRequests(n);
      match Parse(text)
      case Failure(e) => RunResult(Some(text), requests, Fail(Malformed(e)))
      case Success(table) =>
        var r := Resolution(table, fetch);
        RunResult(Some(Serialise(r.table)), requests + DownloadRequests(r.fetched),
                  if r.failure.None? then Pass else Fail(FetchFailed(r.failure.value)))
  }

  /** `main`: build the checkpoint if there is none, read it, resolve, and flush on every exit. */
  method Run(existing: Option<string>, apiKey: Option<string>, dependentsCount: int,
             fetchPage: int -> seq<Dependent>, fetch: string -> FetchOutcome)
    returns (res: RunResult)
    ensures res == Execution(existing, apiKey, dependentsCount, fetchPage, fetch)
  {
    var text: string;
    var requests: seq<Request> := [];
    if existing.None? {
      var dependents, dependentRequests := GetAllDependents(apiKey, dependentsCount, fetchPage);
      if dependents.Failure? {
        return RunResult(None, dependentRequests, Fail(Config(dependents.error)));
      }
      text := WriteCheckpoint(InitialRows(dependents.value));
      requests := dependentRequests;
    } else {
      text := existing.value;
    }
    var parsed := Parse(text);
    if parsed.Failure? {
      return RunResult(Some(text), requests, Fail(Malformed(parsed.error)));
    }
    var rows, fetched, failure := ResolveDownloads(parsed.value, fetch);
    // the `finally` block: the whole table is written whichever way the loop ended
    var flushed := WriteCheckpoint(rows);
    var outcome := if failure.None? then Pass else Fail(FetchFailed(failure.value));
    res := RunResult(Some(flushed), requests + DownloadRequests(fetched), outcome);
  }

  /**
   * Whatever readable checkpoint text without `\r` the run starts from, the
   * file afterwards reads back as the table the loop left, whether or not a
   * look-up failed: no resolved row is lost, and the run fails exactly when
   * the loop stopped on an error.
   */
  lemma {:induction false} CheckpointSurvivesFailure(existing: Option<string>, apiKey: Option<string>, dependentsCount: int,
                                  fetchPage: int -> seq<Dependent>, fetch: string -> FetchOutcome)
    requires existing.Some? || HasApiKey(apiKey)
    requires '\r' !in CheckpointText(existing, dependentsCount, fetchPage)
    requires Parse(CheckpointText(existing, dependentsCount, fetchPage)).Success?
    ensures var res := Execution(existing, apiKey, dependentsCount, fetchPage, fetch);
            var r := Resolution(Parse(CheckpointText(existing, dependentsCount, fetchPage)).value, fetch);
            res.file.Some? && Parse(res.file.value) == Success(r.table)
    ensures var res := Execution(existing, apiKey, dependentsCount, fetchPage, fetch);
            var r := Resolution(Parse(CheckpointText(existing, dependentsCount, fetchPage)).value, fetch);
            res.requests == (if existing.Some? then [] else [DependentsInfo] + PageRequests(NumPages(dependentsCount)))
                            + DownloadRequests(r.fetched)
    ensures var res := Execution(existing, apiKey, dependentsCount, fetchPage, fetch);
            var r := Resolution(Parse(CheckpointText(existing, dependentsCount, fetchPage)).value, fetch);
            res.outcome.Pass? <==> r.failure.None?
  {
    var text := CheckpointText(existing, dependentsCount, fetchPage);
    var t := Parse(text).value;
    ParseWellFormed(text);
    ResolutionKeepsWellFormed(t, fetch);
    ParseSerialise(Resolution(t, fetch).table);
  }

  /**
   * A checkpoint whose rows are all resolved is read, nothing is looked up,
   * and the very same text is written back.
   */
  lemma {:induction false} ResolvedCheckpointUntouched(t: seq<Row>, apiKey: Option<string>, dependentsCount: int,
                                    fetchPage: int -> seq<Dependent>, fetch: string -> FetchOutcome)
    requires WellFormedTable(t)
    requires forall i :: 0 <= i < |t| ==> t[i].1 != Unresolved
    ensures Execution(Some(Serialise(t)), apiKey, dependentsCount, fetchPage, fetch)
              == RunResult(Some(Serialise(t)), [], Pass)
  {
    ParseSerialise(t);
    ResolutionIdleOnResolved(t, fetch);
  }

  /**
   * Running twice: from any readable checkpoint text without `\r`, existing
   * or written by the first run, a run whose loop meets no error passes, and
   * a second run after it makes no request and leaves the file exactly as
   * the first run wrote it.
   */
  lemma {:induction false} RerunIsIdle(existing: Option<string>, apiKey: Option<string>, dependentsCount: int,
                    fetchPage: int -> seq<Dependent>, fetch: string -> FetchOutcome,
                    fetchAgain: string -> FetchOutcome)
    requires existing.Some? || HasApiKey(apiKey)
    requires '\r' !in CheckpointText(existing, dependentsCount, fetchPage)
    requires Parse(CheckpointText(existing, dependentsCount, fetchPage)).Success?
    requires Resolution(Parse(CheckpointText(existing, dependentsCount, fetchPage)).value, fetch).failure.None?
    ensures Execution(existing, apiKey, dependentsCount, fetchPage, fetch).outcome.Pass?
    ensures var first := Execution(existing, apiKey, dependentsCount, fetchPage, fetch);
            var second := Execution(first.file, apiKey, dependentsCount, fetchPage, fetchAgain);
            second.file == first.file && second.requests == [] && second.outcome.Pass?
  {
    var text := CheckpointText(existing, dependentsCount, fetchPage);
    var t := Parse(text).value;
    ParseWellFormed(text);
    var r := Resolution(t, fetch);
    ResolutionKeepsWellFormed(t, fetch);
    ResolutionCompleteOnSuccess(t, fetch);
    ParseSerialise(r.table);
    ResolutionIdleOnResolved(r.table, fetchAgain);
  }

  /**
   * The first run, with an API key and no checkpoint: when the ranked names
   * are well-formed, the table read back from the new checkpoint is the
   * ranking with every field empty, and the look-ups follow the ranking.
   */
  lemma {:induction false} FirstRunFollowsRanking(apiKey: Option<string>, dependentsCount: int,
                               fetchPage: int -> seq<Dependent>, fetch: string -> FetchOutcome)
    requires HasApiKey(apiKey)
    requires forall i :: 0 <= i < |Ranking(dependentsCount, fetchPage)| ==>
               WellFormedName(Ranking(dependentsCount, fetchPage)[i])
    ensures var r := Resolution(InitialRows(Ranking(dependentsCount, fetchPage)), fetch);
            Execution(None, apiKey, dependentsCount, fetchPage, fetch) ==
              RunResult(Some(Serialise(r.table)),
                        [DependentsInfo] + PageRequests(NumPages(dependentsCount)) + DownloadRequests(r.fetched),
                        if r.failure.None? then Pass else Fail(FetchFailed(r.failure.value)))
  {
    var results := Flatten(PageResults(NumPages(dependentsCount), fetchPage));
    var ranked := Ranking(dependentsCount, fetchPage);
    var rows := InitialRows(ranked);
    assert forall i :: 0 <= i < |rows| ==> rows[i].0 == Keys(rows)[i] == ranked[i];
    assert DistinctKeys(rows) by {
      forall i, j | 0 <= i < j < |rows| ensures rows[i].0 != rows[j].0 {
        RankDistinctAt(results, i, j);
      }
    }
    ParseSerialise(rows);
    assert Parse(Serialise(rows)) == Success(rows);
  }
}
