/** The program's top level: the argument list decides between fetching
    jokes, cleaning the table and an error; fetching runs the batch against
    the endpoint's responses from the first one on. `Int32.TryParse` is the
    parameter `tryParse`. */
module JokeImport {
  import opened Jokes
  import opened JokeAcquirer
  import opened JokeBatch

  const DefaultJokes := 5
  const MaxJokes := 10
  const CleanArgument := "clean"

  datatype ArgumentError =
    | WrongArgumentCount   // "Wrong amount of arguments!", written to standard error
    | NotANumber           // "Input wasn't a number!", an unhandled exception
    | CountOutOfRange      // "Wrong amount of jokes [1 - 10]!", an unhandled exception

  datatype Command = FetchJokes(count: nat) | CleanTable | Invalid(error: ArgumentError)

  /** The argument dispatch. Fetching is decided only for a count in
      [1, 10]; "clean" is decided exactly for the single argument "clean";
      two or more arguments are always the argument-count error; a single
      other argument fails exactly when it does not parse or parses outside
      [1, 10]. */
  function ParseCommand(args: seq<string>, tryParse: string -> Option<int>): (cmd: Command)
    ensures cmd.FetchJokes? ==> 1 <= cmd.count <= MaxJokes
    ensures args == [] ==> cmd == FetchJokes(DefaultJokes)
    ensures cmd == CleanTable <==> args == [CleanArgument]
    ensures cmd == Invalid(WrongArgumentCount) <==> |args| >= 2
    ensures cmd == Invalid(NotANumber) <==> |args| == 1 && args[0] != CleanArgument && tryParse(args[0]).None?
    ensures cmd == Invalid(CountOutOfRange) <==>
      |args| == 1 && args[0] != CleanArgument && tryParse(args[0]).Some? &&
      !(1 <= tryParse(args[0]).value <= MaxJokes)
    ensures |args| == 1 && cmd.FetchJokes? ==> tryParse(args[0]) == Some(cmd.count)
  {
    if |args| == 1 || |args| == 0 then
      var noArguments := |args| == 0;
      if !noArguments && args[0] == CleanArgument then CleanTable
      else if noArguments then FetchJokes(DefaultJokes)
      else match tryParse(args[0])
        case None => Invalid(NotANumber)
        case Some(maxJokes) =>
          if maxJokes < 1 || maxJokes > MaxJokes then Invalid(CountOutOfRange)
          else FetchJokes(maxJokes)
    else Invalid(WrongArgumentCount)
  }

  /** How the run ended. */
  datatype Report = Completed | ArgumentFailure(error: ArgumentError) | BatchFailure(cause: AcquireError)

  /** The whole run: the report, the table afterwards, and how many
      responses of the endpoint were consumed. */
  datatype Effect = Effect(report: Report, store: seq<JokeRecord>, consumed: nat)

  /** The program. An invalid argument list is reported as that argument
      error, fetches nothing and leaves the table alone; "clean" fetches
      nothing and empties the table; a fetch consumes what its batch
      consumes, and a failed batch is reported with its error; a completed fetch
      keeps the rows already there and appends between 1 and 10 rows (exactly
      the requested number, by `CompletedFetch`); a failed fetch leaves the
      table as it was. */
  function Run(args: seq<string>, tryParse: string -> Option<int>,
               source: seq<Option<Candidate>>, store: seq<JokeRecord>): (e: Effect)
    ensures ParseCommand(args, tryParse).Invalid? ==>
      e == Effect(ArgumentFailure(ParseCommand(args, tryParse).error), store, 0)
    ensures e.report.ArgumentFailure? ==> e.store == store && e.consumed == 0
    ensures args == [CleanArgument] ==> e == Effect(Completed, [], 0)
    ensures e.report.BatchFailure? ==> e.store == store
    ensures ParseCommand(args, tryParse).FetchJokes? ==>
      var b := Batch(source, 0, store, ParseCommand(args, tryParse).count);
      e.consumed == b.consumed &&
      (b.outcome.Failure? ==> e == Effect(BatchFailure(b.outcome.error), store, b.consumed)) &&
      (b.outcome.Success? ==> e.report == Completed && e.store == Committed(store, b))
    ensures e.report == Completed && args != [CleanArgument] ==>
      |store| + 1 <= |e.store| <= |store| + MaxJokes && e.store[..|store|] == store
    ensures e.consumed <= MaxAttempts * MaxJokes && e.consumed <= |source|
  {
    match ParseCommand(args, tryParse)
    case Invalid(error) => Effect(ArgumentFailure(error), store, 0)
    case CleanTable => Effect(Completed, [], 0)
    case FetchJokes(n) =>
      var b := Batch(source, 0, store, n);
      Effect(if b.outcome.Success? then Completed else BatchFailure(b.outcome.error), Committed(store, b), b.consumed)
  }

  /** The top-level statements: dispatch, then delete every row or run the
      batch and report its error. */
  method RunProgram(args: seq<string>, tryParse: string -> Option<int>,
                    source: seq<Option<Candidate>>, store: seq<JokeRecord>)
    returns (report: Report, table: seq<JokeRecord>, consumed: nat)
    ensures Effect(report, table, consumed) == Run(args, tryParse, source, store)
  {
    var command := ParseCommand(args, tryParse);
    match command {
      case Invalid(error) =>
        report, table, consumed := ArgumentFailure(error), store, 0;
      case CleanTable =>
        report, table, consumed := Completed, [], 0;
      case FetchJokes(maxJokes) =>
        var failure;
        table, failure, consumed := InsertJokes(source, 0, store, maxJokes);
        report := if failure.Some? then BatchFailure(failure.value) else Completed;
    }
  }

  /** No arguments behave exactly like the single argument "5". */
  lemma NoArgumentsMeansFive(tryParse: string -> Option<int>, source: seq<Option<Candidate>>, store: seq<JokeRecord>)
    requires tryParse("5") == Some(5)
    ensures Run([], tryParse, source, store) == Run(["5"], tryParse, source, store)
  {
  }

  /** A completed fetch of `n` jokes adds, after the rows already there, one
      row per accepted candidate in acquisition order, each copying the
      candidate's id, URL and text. The candidates are responses the
      endpoint delivered, at strictly increasing positions `ps` among the
      consumed ones. Every candidate is non-explicit, or its id was in the
      table as it stood when it was fetched: among the committed rows or the
      candidates accepted before it (`FetchCalls` gives the calls one by
      one). */
  lemma CompletedFetch(args: seq<string>, tryParse: string -> Option<int>,
                       source: seq<Option<Candidate>>, store: seq<JokeRecord>)
    returns (ps: seq<nat>)
    requires ParseCommand(args, tryParse).FetchJokes?
    ensures var n := ParseCommand(args, tryParse).count;
      var e := Run(args, tryParse, source, store);
      var b := Batch(source, 0, store, n);
      e.report == Completed ==>
        b.outcome.Success? && |b.outcome.value| == n && |e.store| == |store| + n && e.store[..|store|] == store &&
        (forall i :: 0 <= i < n ==>
           e.store[|store| + i] == JokeRecord(b.outcome.value[i].id, b.outcome.value[i].url, b.outcome.value[i].value)) &&
        |ps| == n &&
        (forall i :: 0 <= i < n ==> ps[i] < e.consumed && source[ps[i]] == Some(b.outcome.value[i])) &&
        (forall i, j :: 0 <= i < j < n ==> ps[i] < ps[j]) &&
        (forall i :: 0 <= i < n ==>
           Accepted(b.outcome.value[i], store + ToRecords(b.outcome.value[..i]))) &&
        (forall i :: 0 <= i < n ==>
           !IsExplicit(b.outcome.value[i]) || IsStored(store, b.outcome.value[i].id) ||
           exists k :: 0 <= k < i && b.outcome.value[k].id == b.outcome.value[i].id)
  {
    var n := ParseCommand(args, tryParse).count;
    BatchAccepted(source, 0, store, n);
    ps := BatchResponses(source, 0, store, n);
    var b := Batch(source, 0, store, n);
    if b.outcome.Success? {
      AcceptedByIds(store, b.outcome.value);
    }
  }

  /** The calls of a completed fetch of `n` jokes, one by one: call `i` of
      the acquisition loop starts at response `starts[i]`, where call `i - 1`
      stopped, runs against the committed rows plus the rows of the
      candidates accepted before it, and returns candidate `i`. Every
      response it skips is explicit and absent from that table, so an
      explicit response repeating an earlier candidate's id is never
      skipped. */
  lemma FetchCalls(args: seq<string>, tryParse: string -> Option<int>,
                   source: seq<Option<Candidate>>, store: seq<JokeRecord>)
    returns (starts: seq<nat>)
    requires ParseCommand(args, tryParse).FetchJokes?
    ensures var n := ParseCommand(args, tryParse).count;
      var e := Run(args, tryParse, source, store);
      var b := Batch(source, 0, store, n);
      e.report == Completed ==>
        var cs := b.outcome.value;
        |starts| == n + 1 && starts[0] == 0 && starts[n] == e.consumed &&
        forall i :: 0 <= i < n ==>
          starts[i] < starts[i + 1] && starts[i] <= |source| &&
          Acquire(source, starts[i], store + ToRecords(cs[..i])) ==
            Acquired(Success(cs[i]), starts[i + 1] - starts[i]) &&
          RejectedRun(source, starts[i], starts[i + 1] - starts[i] - 1, store + ToRecords(cs[..i]))
  {
    starts := BatchCalls(source, 0, store, ParseCommand(args, tryParse).count);
  }

  /** Fetching `n` jokes from an endpoint whose first `n` responses are
      non-explicit candidates appends exactly their rows. */
  lemma CooperativeFetch(args: seq<string>, tryParse: string -> Option<int>,
                         source: seq<Option<Candidate>>, store: seq<JokeRecord>)
    requires ParseCommand(args, tryParse).FetchJokes?
    requires ParseCommand(args, tryParse).count <= |source|
    requires forall k :: 0 <= k < ParseCommand(args, tryParse).count ==>
      source[k].Some? && !IsExplicit(source[k].value)
    ensures var n := ParseCommand(args, tryParse).count;
      var e := Run(args, tryParse, source, store);
      e.report == Completed && e.consumed == n && |e.store| == |store| + n &&
      forall k :: 0 <= k < n ==> source[k].Some? && e.store[|store| + k] == ToRecord(source[k].value)
  {
    BatchCooperative(source, 0, store, ParseCommand(args, tryParse).count);
  }
}
