/** `GetRandomJoke`: fetch candidates one after another until one is
    returned or the attempt counter reaches its cap.

    The endpoint is a sequence of responses consumed in order from a
    position `pos`; `None` is a body that deserialised to null, and reaching
    the end of the sequence stands for the HTTP call itself failing. The
    table is the sequence of rows the duplicate query sees. */
module JokeAcquirer {
  import opened Jokes

  /** The value of `conditionCounter` at which the loop gives up. */
  const MaxAttempts: nat := 9

  datatype AcquireError =
    | FetchFailed        // the HTTP request or the deserialiser threw
    | NotDeserialized    // the body deserialised to null
    | AllJokesStored     // "We already have all jokes": the counter reached its cap

  /** The result of one call and how many responses it consumed. */
  datatype Acquired = Acquired(outcome: Result<Candidate, AcquireError>, consumed: nat)

  /** A candidate that ends the loop: not explicit, or explicit but already stored. */
  predicate Accepted(c: Candidate, store: seq<JokeRecord>) {
    !IsExplicit(c) || IsStored(store, c.id)
  }

  /** The loop ends on a candidate exactly when its category array is empty,
      its first category is not "explicit", or a stored row carries its id. */
  lemma AcceptedIff(c: Candidate, store: seq<JokeRecord>)
    ensures Accepted(c, store) <==>
      c.categories == [] || c.categories[0] != ExplicitCategory ||
      exists r :: r in store && r.chuckNorrisId == c.id
  {
    IsExplicitIff(c);
  }

  /** A response that makes the loop go round again: an explicit candidate
      whose id is not yet stored. */
  predicate Rejected(response: Option<Candidate>, store: seq<JokeRecord>) {
    response.Some? && !Accepted(response.value, store)
  }

  /** The `n` responses from `pos` on exist and are all rejected. */
  predicate RejectedRun(source: seq<Option<Candidate>>, pos: nat, n: nat, store: seq<JokeRecord>)
    ensures RejectedRun(source, pos, n, store) ==> pos + n <= |source|
    decreases n
  {
    if n == 0 then pos <= |source|
    else pos < |source| && Rejected(source[pos], store) && RejectedRun(source, pos + 1, n - 1, store)
  }

  function Shifted(a: Acquired, n: nat): Acquired {
    Acquired(a.outcome, a.consumed + n)
  }

  /** The loop, entered at the top of an iteration with `left` attempts
      before the counter reaches its cap and the next response at `pos`: it
      consumes only responses that exist, and at most one per attempt left. */
  function AcquireFrom(source: seq<Option<Candidate>>, pos: nat, store: seq<JokeRecord>, left: nat): (a: Acquired)
    requires pos <= |source|
    ensures pos + a.consumed <= |source|
    ensures a.consumed <= left
    ensures a.outcome.Success? ==> Accepted(a.outcome.value, store)
    decreases |source| - pos
  {
    if left == 0 then Acquired(Failure(AllJokesStored), 0)
    else if pos == |source| then Acquired(Failure(FetchFailed), 0)
    else match source[pos]
      case None => Acquired(Failure(NotDeserialized), 1)
      case Some(c) =>
        if Accepted(c, store) then Acquired(Success(c), 1)
        else Shifted(AcquireFrom(source, pos + 1, store, left - 1), 1)
  }

  /** A returned candidate is the last response consumed and ends the loop;
      every response before it was explicit and not stored. */
  lemma {:induction false} AcquireFromSucceeds(source: seq<Option<Candidate>>, pos: nat, store: seq<JokeRecord>, left: nat)
    requires pos <= |source|
    ensures var a := AcquireFrom(source, pos, store, left);
      a.outcome.Success? ==>
        a.consumed >= 1 && RejectedRun(source, pos, a.consumed - 1, store) &&
        source[pos + a.consumed - 1].Some? && source[pos + a.consumed - 1].value == a.outcome.value &&
        Accepted(a.outcome.value, store)
    decreases left
  {
    if left > 0 && pos < |source| && Rejected(source[pos], store) {
      AcquireFromSucceeds(source, pos + 1, store, left - 1);
    }
  }

  /** A null body is the last response consumed; every response before it
      was explicit and not stored. */
  lemma {:induction false} AcquireFromNull(source: seq<Option<Candidate>>, pos: nat, store: seq<JokeRecord>, left: nat)
    requires pos <= |source|
    ensures var a := AcquireFrom(source, pos, store, left);
      a.outcome == Failure(NotDeserialized) ==>
        a.consumed >= 1 && RejectedRun(source, pos, a.consumed - 1, store) &&
        source[pos + a.consumed - 1].None?
    decreases left
  {
    if left > 0 && pos < |source| && Rejected(source[pos], store) {
      AcquireFromNull(source, pos + 1, store, left - 1);
    }
  }

  /** The cap is reported after exactly the attempts that were left, all of
      them explicit and not stored. */
  lemma {:induction false} AcquireFromCap(source: seq<Option<Candidate>>, pos: nat, store: seq<JokeRecord>, left: nat)
    requires pos <= |source|
    ensures var a := AcquireFrom(source, pos, store, left);
      a.outcome == Failure(AllJokesStored) ==>
        a.consumed == left && RejectedRun(source, pos, a.consumed, store)
    decreases left
  {
    if left > 0 && pos < |source| && Rejected(source[pos], store) {
      AcquireFromCap(source, pos + 1, store, left - 1);
    }
  }

  /** A failed fetch happens at the end of the responses, with attempts to
      spare, after responses that were all explicit and not stored. */
  lemma {:induction false} AcquireFromFetch(source: seq<Option<Candidate>>, pos: nat, store: seq<JokeRecord>, left: nat)
    requires pos <= |source|
    ensures var a := AcquireFrom(source, pos, store, left);
      a.outcome == Failure(FetchFailed) ==>
        pos + a.consumed == |source| && a.consumed < left &&
        RejectedRun(source, pos, a.consumed, store)
    decreases left
  {
    if left > 0 && pos < |source| && Rejected(source[pos], store) {
      AcquireFromFetch(source, pos + 1, store, left - 1);
    }
  }

  /** One iteration of the loop, case by case. */
  lemma AcquireFromStep(source: seq<Option<Candidate>>, pos: nat, store: seq<JokeRecord>, left: nat)
    requires pos <= |source|
    ensures left == 0 ==> AcquireFrom(source, pos, store, left) == Acquired(Failure(AllJokesStored), 0)
    ensures left > 0 && pos == |source| ==> AcquireFrom(source, pos, store, left) == Acquired(Failure(FetchFailed), 0)
    ensures left > 0 && pos < |source| && source[pos].None? ==>
      AcquireFrom(source, pos, store, left) == Acquired(Failure(NotDeserialized), 1)
    ensures left > 0 && pos < |source| && source[pos].Some? && Accepted(source[pos].value, store) ==>
      AcquireFrom(source, pos, store, left) == Acquired(Success(source[pos].value), 1)
    ensures left > 0 && pos < |source| && Rejected(source[pos], store) ==>
      AcquireFrom(source, pos, store, left) == Shifted(AcquireFrom(source, pos + 1, store, left - 1), 1)
  {
  }

  /** One call of `GetRandomJoke`: the counter starts at zero, so all the
      attempts are left. */
  function Acquire(source: seq<Option<Candidate>>, pos: nat, store: seq<JokeRecord>): (a: Acquired)
    requires pos <= |source|
    ensures pos + a.consumed <= |source| && a.consumed <= MaxAttempts
    ensures a.outcome.Success? ==> Accepted(a.outcome.value, store)
  {
    AcquireFrom(source, pos, store, MaxAttempts)
  }

  /** The loop as written: a do-while whose body checks the cap, fetches,
      fails on null, breaks on a non-explicit candidate and otherwise counts
      the attempt, and whose condition goes round again only while the id is
      not stored. */
  method GetRandomJoke(source: seq<Option<Candidate>>, pos: nat, store: seq<JokeRecord>)
    returns (outcome: Result<Candidate, AcquireError>, consumed: nat)
    requires pos <= |source|
    ensures Acquired(outcome, consumed) == Acquire(source, pos, store)
  {
    var conditionCounter: nat := 0;
    var next := pos;
    var jokeData := EmptyCandidate;
    ghost var left: nat := MaxAttempts;
    while true
      invariant conditionCounter + left == MaxAttempts
      invariant next == pos + conditionCounter <= |source|
      invariant Acquire(source, pos, store) == Shifted(AcquireFrom(source, next, store, left), conditionCounter)
      decreases left
    {
      AcquireFromStep(source, next, store, left);
      if conditionCounter == MaxAttempts {
        return Failure(AllJokesStored), next - pos;
      }
      if next == |source| {
        return Failure(FetchFailed), next - pos;
      }
      var response := source[next];
      next := next + 1;
      if response.None? {
        return Failure(NotDeserialized), next - pos;
      }
      jokeData := response.value;
      if !IsExplicit(jokeData) {
        break;
      }
      conditionCounter := conditionCounter + 1;
      if IsStored(store, jokeData.id) {
        break;
      }
      left := left - 1;
    }
    outcome, consumed := Success(jokeData), next - pos;
  }

  /** Skipping a run of rejected responses costs one attempt and one
      response each. */
  lemma {:induction false} AcquireSkipsRejected(source: seq<Option<Candidate>>, pos: nat, store: seq<JokeRecord>, left: nat, k: nat)
    requires k <= left
    requires RejectedRun(source, pos, k, store)
    ensures AcquireFrom(source, pos, store, left) == Shifted(AcquireFrom(source, pos + k, store, left - k), k)
    decreases k
  {
    if k > 0 {
      AcquireSkipsRejected(source, pos + 1, store, left - 1, k - 1);
    }
  }

  /** A call returns `c` after `n` responses exactly when the first `n - 1`
      were rejected (n <= 9) and the n-th is `c`, which ends the loop. */
  lemma {:induction false} AcquireSucceedsIff(source: seq<Option<Candidate>>, pos: nat, store: seq<JokeRecord>, c: Candidate, n: nat)
    requires pos <= |source|
    ensures Acquire(source, pos, store) == Acquired(Success(c), n) <==>
      1 <= n <= MaxAttempts && pos + n <= |source| && RejectedRun(source, pos, n - 1, store) &&
      source[pos + n - 1] == Some(c) && Accepted(c, store)
  {
    if Acquire(source, pos, store) == Acquired(Success(c), n) {
      AcquireFromSucceeds(source, pos, store, MaxAttempts);
    }
    if 1 <= n <= MaxAttempts && pos + n <= |source| && RejectedRun(source, pos, n - 1, store) &&
       source[pos + n - 1] == Some(c) && Accepted(c, store) {
      AcquireSkipsRejected(source, pos, store, MaxAttempts, n - 1);
      AcquireFromStep(source, pos + (n - 1), store, MaxAttempts - (n - 1));
    }
  }

  /** "We already have all jokes" is reported exactly when nine rejected
      responses come in a row, and then nine were consumed. */
  lemma {:induction false} AcquireExhaustedIff(source: seq<Option<Candidate>>, pos: nat, store: seq<JokeRecord>)
    requires pos <= |source|
    ensures Acquire(source, pos, store).outcome == Failure(AllJokesStored) <==> RejectedRun(source, pos, MaxAttempts, store)
    ensures Acquire(source, pos, store).outcome == Failure(AllJokesStored) ==> Acquire(source, pos, store).consumed == MaxAttempts
  {
    AcquireFromCap(source, pos, store, MaxAttempts);
    if RejectedRun(source, pos, MaxAttempts, store) {
      AcquireSkipsRejected(source, pos, store, MaxAttempts, MaxAttempts);
    }
  }

  /** A null body fails the call at once, whatever the counter: after any
      `k < 9` rejected responses. */
  lemma AcquireNullFails(source: seq<Option<Candidate>>, pos: nat, store: seq<JokeRecord>, k: nat)
    requires k < MaxAttempts && RejectedRun(source, pos, k, store)
    requires pos + k < |source| && source[pos + k] == None
    ensures Acquire(source, pos, store) == Acquired(Failure(NotDeserialized), k + 1)
  {
    AcquireSkipsRejected(source, pos, store, MaxAttempts, k);
  }

  /** A failing HTTP call after fewer than nine rejected responses fails the call. */
  lemma AcquireFetchFails(source: seq<Option<Candidate>>, pos: nat, store: seq<JokeRecord>)
    requires pos <= |source| && |source| - pos < MaxAttempts
    requires RejectedRun(source, pos, |source| - pos, store)
    ensures Acquire(source, pos, store) == Acquired(Failure(FetchFailed), |source| - pos)
  {
    AcquireSkipsRejected(source, pos, store, MaxAttempts, |source| - pos);
  }

  /** The duplicate test is only the loop's continuation condition: an
      explicit candidate whose id is already stored ends the loop and is
      returned. */
  lemma ExplicitDuplicateIsReturned(source: seq<Option<Candidate>>, pos: nat, store: seq<JokeRecord>, c: Candidate)
    requires pos < |source| && source[pos] == Some(c)
    requires IsExplicit(c) && IsStored(store, c.id)
    ensures Acquire(source, pos, store) == Acquired(Success(c), 1)
  {
  }

  /** A non-explicit candidate is returned at once, stored or not; this
      includes one with no categories at all. */
  lemma NonExplicitIsReturned(source: seq<Option<Candidate>>, pos: nat, store: seq<JokeRecord>, c: Candidate)
    requires pos < |source| && source[pos] == Some(c)
    requires c.categories == [] || c.categories[0] != ExplicitCategory
    ensures Acquire(source, pos, store) == Acquired(Success(c), 1)
  {
  }
}
