# Chuck Norris joke import, modelled in Dafny

The program is a command-line import. With no argument it fetches 5 random
jokes from the public Chuck Norris joke endpoint. With one numeric argument
in [1, 10] it fetches that many. It stores them in the `ChuckNorrisJokes`
table within a single transaction. The single argument `clean` deletes every
row. Any other argument list is an error.

Each joke comes from `GetRandomJoke`, a bounded retry loop:

- It fetches a candidate.
- It fails at once when the body deserialises to null.
- It returns a candidate whose first category is not `explicit`. This
  includes a candidate with no categories.
- For an explicit candidate, it counts an attempt. It fetches again only
  while the candidate's id is not already in the table.
- It gives up ("We already have all jokes") when the counter reaches 9 at
  the top of an iteration.

The model keeps these parts of the program:

- **`Jokes`** (`jokes.dfy`): the candidate, the table row and the mapping
  between them (`Id` to `ChuckNorrisId`, `Url` to `Url`, `Value` to `Joke`).
  It also holds the "explicit" test and the duplicate query over the stored
  `ChuckNorrisId`s.
- **`JokeAcquirer`** (`acquirer.dfy`): `GetRandomJoke`. The loop is
  written as a method. It is proved equal to the recursive definition
  `Acquire`, and the lemmas characterise every outcome of `Acquire`. The
  endpoint is a sequence of responses consumed in order. `None` is a body
  that deserialised to null. Running off the end of the sequence means
  the HTTP call threw.
- **`JokeBatch`** (`batch.dfy`): the `for` loop over `maxJokes`. Each
  accepted candidate becomes a row added to the table at once, so the next
  call's duplicate query sees it. The method is proved equal to the
  definition `Batch`, the recursive `BatchPrefix` over all `maxJokes` iterations. On success, `Committed` gives the table as
  the committed rows followed by the new ones. On any error the committed
  rows are unchanged.
- **`JokeImport`** (`program.dfy`): the argument dispatch `ParseCommand`,
  the whole run `Run`, and the top-level statements `RunProgram`. The
  program's `Int32.TryParse` is the parameter `tryParse`.

The model follows the loop as written. The duplicate test is only the
loop's continuation condition. So an explicit candidate whose id is already
stored ends the loop and is returned and stored; it is not rejected. A
non-explicit candidate is returned whether or not its id is stored. The
loop never rejects a candidate because its id is already stored. Every returned
candidate is either non-explicit or explicit with its id already in the
table (`AcquireFrom`, `AcquireFromSucceeds`, `BatchAccepted`).

## Model

| member | source | states |
|---|---|---|
| `Jokes.IsExplicitIff` | EntityFrameworkChuckNorrisExercise/Program.cs:74 | the "explicit" test holds exactly when the category array is non-empty and its first label is "explicit"; an empty array is never explicit, as `FirstOrDefault` yields null |
| `Jokes.ToRecordsAt` | EntityFrameworkChuckNorrisExercise/Program.cs:45 | the row built for the i-th candidate copies its Id to ChuckNorrisId, its Url to Url and its Value to Joke |
| `Jokes.ToRecordsEach` | EntityFrameworkChuckNorrisExercise/Program.cs:45 | every row of a sequence of candidates copies the id, URL and text of the candidate at the same index |
| `Jokes.IsStoredAppend` | EntityFrameworkChuckNorrisExercise/Program.cs:76 | the duplicate query over an empty table finds nothing; after one row is added it finds the ids found before plus that row's ChuckNorrisId |
| `Jokes.IsStoredAfterInsert` | EntityFrameworkChuckNorrisExercise/Program.cs:44-47 | after rows for some candidates are added, the duplicate query finds exactly the ids stored before plus those candidates' ids |
| `JokeAcquirer.AcceptedIff` | EntityFrameworkChuckNorrisExercise/Program.cs:74-76 | the loop ends on a candidate exactly when its category array is empty, its first category is not "explicit", or a stored row carries its id |
| `JokeAcquirer.AcquireFrom` | EntityFrameworkChuckNorrisExercise/Program.cs:65-76 | one call consumes only responses that exist, no more than the attempts left before the counter reaches 9, and a candidate it returns is non-explicit or already stored |
| `JokeAcquirer.AcquireFromSucceeds` | EntityFrameworkChuckNorrisExercise/Program.cs:68-78 | a returned candidate is the last response consumed and is non-explicit or already stored; every response before it was explicit and not stored |
| `JokeAcquirer.AcquireFromNull` | EntityFrameworkChuckNorrisExercise/Program.cs:71-73 | a null body is the last response consumed; every response before it was explicit and not stored |
| `JokeAcquirer.AcquireFromCap` | EntityFrameworkChuckNorrisExercise/Program.cs:70-76 | "all jokes" comes after exactly the attempts that were left, every one of them explicit and not stored |
| `JokeAcquirer.AcquireFromFetch` | EntityFrameworkChuckNorrisExercise/Program.cs:70-71 | a failed fetch comes at the end of the responses, with attempts to spare, after responses that were all explicit and not stored |
| `JokeAcquirer.Acquire` | EntityFrameworkChuckNorrisExercise/Program.cs:63-79 | one call of `GetRandomJoke` consumes at most 9 responses, only ones that exist, and returns only a candidate that ends the loop |
| `JokeAcquirer.GetRandomJoke` | EntityFrameworkChuckNorrisExercise/Program.cs:63-79 | the do-while loop with its counter, null check, break and continuation query returns the same outcome and consumes the same responses as `Acquire` |
| `JokeAcquirer.AcquireSkipsRejected` | EntityFrameworkChuckNorrisExercise/Program.cs:74-76 | each explicit, not-yet-stored response costs one attempt and one response, and the loop goes on from the next response |
| `JokeAcquirer.AcquireSucceedsIff` | EntityFrameworkChuckNorrisExercise/Program.cs:68-78 | a call returns candidate c after n responses exactly when n is at most 9, the first n-1 responses are explicit and not stored, and the n-th is c, which is non-explicit or already stored |
| `JokeAcquirer.AcquireExhaustedIff` | EntityFrameworkChuckNorrisExercise/Program.cs:65-76 | "We already have all jokes" is reported exactly when 9 explicit, not-yet-stored responses come in a row, and then 9 responses were consumed |
| `JokeAcquirer.AcquireNullFails` | EntityFrameworkChuckNorrisExercise/Program.cs:72-73 | a null body fails the call at once after any number k < 9 of rejected responses, consuming k+1 |
| `JokeAcquirer.AcquireFetchFails` | EntityFrameworkChuckNorrisExercise/Program.cs:70-71 | when the HTTP call fails after fewer than 9 rejected responses, the call fails with the fetch error |
| `JokeAcquirer.ExplicitDuplicateIsReturned` | EntityFrameworkChuckNorrisExercise/Program.cs:74-76 | an explicit candidate whose id is already stored is returned, after one response |
| `JokeAcquirer.NonExplicitIsReturned` | EntityFrameworkChuckNorrisExercise/Program.cs:74 | a candidate with no categories, or whose first category is not "explicit", is returned at once, stored or not |
| `JokeBatch.BatchPrefix` | EntityFrameworkChuckNorrisExercise/Program.cs:42-48 | the first n iterations consume only responses that exist; when they all succeed they have accepted exactly n candidates |
| `JokeBatch.Batch` | EntityFrameworkChuckNorrisExercise/Program.cs:42-48 | the whole batch consumes only responses that exist and at most 9 per iteration; a successful batch accepts exactly maxJokes candidates |
| `JokeBatch.Committed` | EntityFrameworkChuckNorrisExercise/Program.cs:49-54 | after a commit the table is the old rows followed by one row per accepted candidate, in order, each copying its id, URL and text; without a commit the old rows are unchanged |
| `JokeBatch.InsertJokes` | EntityFrameworkChuckNorrisExercise/Program.cs:39-54 | the loop with its add-then-query table and its commit or error report gives the same outcome and table as `Batch`: committed rows plus the new rows on success, the committed rows unchanged on failure |
| `JokeBatch.PrefixStaysFailed` | EntityFrameworkChuckNorrisExercise/Program.cs:42-54 | once an iteration has thrown, the later iterations do not run: the outcome of the whole batch is that failure |
| `JokeBatch.PrefixAccepted` | EntityFrameworkChuckNorrisExercise/Program.cs:42-47 | the candidates of a successful run of n iterations each ended their loop against the committed rows plus the rows added by the iterations before it |
| `JokeBatch.BatchAccepted` | EntityFrameworkChuckNorrisExercise/Program.cs:42-47 | a successful batch has maxJokes candidates; each one is non-explicit, or its id was in the committed rows or in the rows added by earlier iterations |
| `JokeBatch.AcceptedByIds` | EntityFrameworkChuckNorrisExercise/Program.cs:44-47 | each accepted candidate is non-explicit, or its id is among the committed ids or the ids of the candidates accepted before it in the same batch |
| `JokeBatch.PrefixCalls` | EntityFrameworkChuckNorrisExercise/Program.cs:42-47 | a successful run of n iterations is n calls of the acquisition loop, each starting where the one before stopped and together consuming what the run consumed; call i runs against the committed rows plus the rows of exactly the candidates before it and returns candidate i |
| `JokeBatch.CallsAt` | EntityFrameworkChuckNorrisExercise/Program.cs:44-76 | call i returns candidate i after skipping only responses that were explicit and absent from the committed rows and the rows of the earlier candidates |
| `JokeBatch.BatchCalls` | EntityFrameworkChuckNorrisExercise/Program.cs:42-76 | the same for a whole successful batch, in indexed form: each call resumes where the previous one stopped, sees the rows added by the earlier iterations, skips only explicit responses absent from that table, and returns its candidate |
| `JokeBatch.PrefixResponses` | EntityFrameworkChuckNorrisExercise/Program.cs:42-44 | every candidate of a successful run of n iterations is a response the endpoint delivered, at strictly increasing positions inside the consumed responses |
| `JokeBatch.BatchResponses` | EntityFrameworkChuckNorrisExercise/Program.cs:42-48 | a successful batch takes its candidates from delivered responses, in the order they were consumed, each at a position inside the consumed prefix |
| `JokeBatch.PrefixConsumption` | EntityFrameworkChuckNorrisExercise/Program.cs:42-44 | n iterations consume at most 9 responses each |
| `JokeBatch.PrefixCooperative` | EntityFrameworkChuckNorrisExercise/Program.cs:42-48 | if the first n responses are all non-explicit candidates, n iterations accept exactly those, in order, one response each |
| `JokeBatch.BatchCooperative` | EntityFrameworkChuckNorrisExercise/Program.cs:42-49 | with such an endpoint, a batch of n appends exactly n rows, each built from the matching response |
| `JokeImport.ParseCommand` | EntityFrameworkChuckNorrisExercise/Program.cs:15-60 | no arguments fetch 5. Exactly the argument list ["clean"] cleans. Two or more arguments give the argument-count error. A single other argument gives "not a number" when it does not parse and "out of range" outside [1, 10]. Otherwise it fetches the parsed count, always in [1, 10] |
| `JokeImport.Run` | EntityFrameworkChuckNorrisExercise/Program.cs:17-60 | an argument list the dispatch finds invalid ends with that argument error, fetches nothing and leaves the table alone. "clean" empties the table and fetches nothing. A fetch consumes exactly what its batch consumes; a failed batch is reported with its error and leaves the table unchanged; a completed one keeps the old rows and appends the committed rows of the batch, between 1 and 10. At most 90 responses are consumed |
| `JokeImport.RunProgram` | EntityFrameworkChuckNorrisExercise/Program.cs:17-60 | the top-level statements (dispatch, delete or batch, error report) have the same effect as `Run` |
| `JokeImport.NoArgumentsMeansFive` | EntityFrameworkChuckNorrisExercise/Program.cs:20-24 | running without arguments is the same as running with "5" |
| `JokeImport.CompletedFetch` | EntityFrameworkChuckNorrisExercise/Program.cs:42-49 | a completed fetch of n appends n rows in acquisition order after the old ones. Each row copies the candidate's id, URL and text. The candidates are responses delivered at strictly increasing positions among the consumed ones. Each one is non-explicit, or its id was among the committed ids or those of the earlier candidates |
| `JokeImport.FetchCalls` | EntityFrameworkChuckNorrisExercise/Program.cs:42-76 | in a completed fetch of n, call i of the acquisition loop starts where call i-1 stopped, runs against the old rows plus the earlier candidates' rows, skips only explicit responses absent from that table, and returns candidate i; so an explicit response that repeats an earlier candidate's id is returned, not skipped |
| `JokeImport.CooperativeFetch` | EntityFrameworkChuckNorrisExercise/Program.cs:42-49 | when the first n responses are non-explicit candidates, a fetch of n completes, consumes n responses and appends exactly their rows |

## Left out

- The HTTP request and the JSON deserialiser are replaced by the sequence of responses. A request that throws and a malformed body are both "fetch failed" (the end of the sequence). Only the null result has a variant of its own.
- A JSON body with `"categories": null` or `"id": null` is not modelled. A candidate always has a category array and a string id. In the program, a null category array makes `FirstOrDefault` throw.
- The duplicate query compares ids as exact strings. SQL Server's collation rules (case and trailing spaces) are not modelled.
- The surrogate key `Id` that storage assigns is not part of a row. The column length limits (40 for `ChuckNorrisId`, 1024 for `Url`) are not modelled. The database enforces them and the program never checks them. A save that fails for a too-long value, or for any other database reason, is not modelled.
- Entity Framework Core specifics are not modelled: the context, the intermediate saves, the SQL `DELETE`, and the transaction's rollback and isolation. The table is a sequence of rows. The rows added inside the batch are visible to later duplicate queries. Commit replaces the table with the batch result; no commit leaves it as it was.
- `Int32.TryParse` is an arbitrary `string -> Option<int>` function. Its culture, whitespace and sign rules are not modelled.
- The console messages are not modelled. The error kinds are datatype variants. The argument-count error is printed, while "not a number" and "out of range" end the program with an unhandled exception; both are `ArgumentFailure`.
- `async`/`await` is not modelled: the program runs strictly in sequence.
- `ChuckNorrisJokeContextFactory` and the `appsettings.json` connection string are configuration plumbing and are not modelled.
- The candidate fields `CreatedAt`, `IconUrl` and `UpdatedAt` are never read, so the model leaves them out.
- `Migrations/20201124154746_First.cs` only declares the table schema and is not part of this model.
