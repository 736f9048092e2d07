/** The batch of the import: `maxJokes` calls of the acquisition loop inside
    one transaction. Every accepted candidate becomes a row that is added to
    the table at once, so the duplicate query of the next call sees it; the
    rows are committed only when every call succeeds. */
module JokeBatch {
  import opened Jokes
  import opened JokeAcquirer

  /** The candidates a batch accepted, in order, or the error that ended it,
      and how many responses it consumed. */
  datatype BatchRun = BatchRun(outcome: Result<seq<Candidate>, AcquireError>, consumed: nat)

  /** The first `n` iterations, starting from the committed rows `store`:
      each call sees the committed rows plus the rows of the candidates
      accepted before it; the first error ends the batch. A successful run
      accepts one candidate per iteration. */
  function BatchPrefix(source: seq<Option<Candidate>>, pos: nat, store: seq<JokeRecord>, n: nat): (b: BatchRun)
    requires pos <= |source|
    ensures pos + b.consumed <= |source|
    ensures b.outcome.Success? ==> |b.outcome.value| == n
    decreases n
  {
    if n == 0 then BatchRun(Success([]), 0)
    else
      var prev := BatchPrefix(source, pos, store, n - 1);
      match prev.outcome
      case Failure(_) => prev
      case Success(cs) =>
        var a := Acquire(source, pos + prev.consumed, store + ToRecords(cs));
        match a.outcome
        case Failure(e) => BatchRun(Failure(e), prev.consumed + a.consumed)
        case Success(c) => BatchRun(Success(cs + [c]), prev.consumed + a.consumed)
  }

  /** A whole batch of `maxJokes` iterations: it consumes at most nine
      responses per iteration, and a successful one accepts `maxJokes`
      candidates. */
  function Batch(source: seq<Option<Candidate>>, pos: nat, store: seq<JokeRecord>, maxJokes: nat): (b: BatchRun)
    requires pos <= |source|
    ensures pos + b.consumed <= |source| && b.consumed <= MaxAttempts * maxJokes
    ensures b.outcome.Success? ==> |b.outcome.value| == maxJokes
  {
    PrefixConsumption(source, pos, store, maxJokes);
    BatchPrefix(source, pos, store, maxJokes)
  }

  /** The table after the batch: the commit keeps the committed rows and
      appends one row per accepted candidate, in order, each copying its id,
      URL and text; without a commit the committed rows stay as they were. */
  function Committed(store: seq<JokeRecord>, b: BatchRun): (table: seq<JokeRecord>)
    ensures b.outcome.Failure? ==> table == store
    ensures b.outcome.Success? ==>
      |table| == |store| + |b.outcome.value| && table[..|store|] == store &&
      forall i :: 0 <= i < |b.outcome.value| ==>
        table[|store| + i] == JokeRecord(b.outcome.value[i].id, b.outcome.value[i].url, b.outcome.value[i].value)
  {
    match b.outcome
    case Success(cs) =>
      ToRecordsEach(cs);
      store + ToRecords(cs)
    case Failure(_) => store
  }

  /** An iteration whose call returns `c` after `used` responses accepts
      `c` and adds its row to the table the next call sees. */
  lemma PrefixSucceeds(source: seq<Option<Candidate>>, pos: nat, store: seq<JokeRecord>, i: nat,
                       accepted: seq<Candidate>, table: seq<JokeRecord>, done: nat, c: Candidate, used: nat)
    requires pos + done <= |source| && table == store + ToRecords(accepted)
    requires BatchPrefix(source, pos, store, i) == BatchRun(Success(accepted), done)
    requires Acquire(source, pos + done, table) == Acquired(Success(c), used)
    ensures pos + (done + used) <= |source|
    ensures table + [ToRecord(c)] == store + ToRecords(accepted + [c])
    ensures BatchPrefix(source, pos, store, i + 1) == BatchRun(Success(accepted + [c]), done + used)
  {
    ToRecordsConcat(accepted, [c]);
  }

  /** An iteration whose call fails ends the run with that error. */
  lemma PrefixFailsNext(source: seq<Option<Candidate>>, pos: nat, store: seq<JokeRecord>, i: nat,
                        accepted: seq<Candidate>, done: nat, e: AcquireError, used: nat)
    requires pos + done <= |source|
    requires BatchPrefix(source, pos, store, i) == BatchRun(Success(accepted), done)
    requires Acquire(source, pos + done, store + ToRecords(accepted)) == Acquired(Failure(e), used)
    ensures BatchPrefix(source, pos, store, i + 1) == BatchRun(Failure(e), done + used)
  {
  }

  /** An iteration whose call fails ends the batch of `n` iterations with
      that error. */
  lemma PrefixFails(source: seq<Option<Candidate>>, pos: nat, store: seq<JokeRecord>, i: nat, n: nat,
                    accepted: seq<Candidate>, table: seq<JokeRecord>, done: nat, e: AcquireError, used: nat)
    requires pos + done <= |source| && table == store + ToRecords(accepted) && i < n
    requires BatchPrefix(source, pos, store, i) == BatchRun(Success(accepted), done)
    requires Acquire(source, pos + done, table) == Acquired(Failure(e), used)
    ensures BatchPrefix(source, pos, store, n) == BatchRun(Failure(e), done + used)
  {
    PrefixFailsNext(source, pos, store, i, accepted, done, e, used);
    PrefixStaysFailed(source, pos, store, i + 1, n);
  }

  /** The call of the last iteration of a successful run, as the loop made it. */
  lemma PrefixLast(source: seq<Option<Candidate>>, pos: nat, store: seq<JokeRecord>, n: nat)
    returns (accepted: seq<Candidate>, done: nat, c: Candidate, used: nat)
    requires pos <= |source| && n > 0 && BatchPrefix(source, pos, store, n).outcome.Success?
    ensures pos + done <= |source|
    ensures BatchPrefix(source, pos, store, n - 1) == BatchRun(Success(accepted), done)
    ensures Acquire(source, pos + done, store + ToRecords(accepted)) == Acquired(Success(c), used)
    ensures BatchPrefix(source, pos, store, n) == BatchRun(Success(accepted + [c]), done + used)
  {
    var prev := BatchPrefix(source, pos, store, n - 1);
    accepted, done := prev.outcome.value, prev.consumed;
    var a := Acquire(source, pos + done, store + ToRecords(accepted));
    c, used := a.outcome.value, a.consumed;
  }

  /** Once an iteration has failed, the later ones change nothing. */
  lemma {:induction false} PrefixStaysFailed(source: seq<Option<Candidate>>, pos: nat, store: seq<JokeRecord>, i: nat, n: nat)
    requires pos <= |source| && i <= n
    requires BatchPrefix(source, pos, store, i).outcome.Failure?
    ensures BatchPrefix(source, pos, store, n) == BatchPrefix(source, pos, store, i)
    decreases n - i
  {
    if i < n {
      PrefixStaysFailed(source, pos, store, i, n - 1);
    }
  }

  /** The batch loop as written: acquire, map to a row, add the row to the
      table; commit after the last iteration, and on any error report it and
      leave the committed rows as they were. */
  method InsertJokes(source: seq<Option<Candidate>>, pos: nat, store: seq<JokeRecord>, maxJokes: nat)
    returns (table: seq<JokeRecord>, failure: Option<AcquireError>, consumed: nat)
    requires pos <= |source|
    ensures var b := Batch(source, pos, store, maxJokes);
      table == Committed(store, b) && consumed == b.consumed &&
      failure == (if b.outcome.Failure? then Some(b.outcome.error) else None)
  {
    var jokes := store;
    ghost var accepted: seq<Candidate> := [];
    consumed := 0;
    for i := 0 to maxJokes
      invariant pos + consumed <= |source|
      invariant jokes == store + ToRecords(accepted)
      invariant BatchPrefix(source, pos, store, i) == BatchRun(Success(accepted), consumed)
    {
      var jokeData, used := GetRandomJoke(source, pos + consumed, jokes);
      if jokeData.Failure? {
        PrefixFails(source, pos, store, i, maxJokes, accepted, jokes, consumed, jokeData.error, used);
        return store, Some(jokeData.error), consumed + used;
      }
      PrefixSucceeds(source, pos, store, i, accepted, jokes, consumed, jokeData.value, used);
      var newJoke := ToRecord(jokeData.value);
      jokes := jokes + [newJoke];
      accepted := accepted + [jokeData.value];
      consumed := consumed + used;
    }
    table, failure := jokes, None;
  }

  /** Each candidate of a successful run of `n` iterations ended its
      acquisition loop against the committed rows plus the rows of the
      candidates accepted before it: it is non-explicit, or its id was there. */
  lemma {:induction false} PrefixAccepted(source: seq<Option<Candidate>>, pos: nat, store: seq<JokeRecord>, n: nat)
    requires pos <= |source|
    ensures var b := BatchPrefix(source, pos, store, n);
      b.outcome.Success? ==> AcceptedInOrder(store, b.outcome.value)
    decreases n
  {
    if n > 0 && BatchPrefix(source, pos, store, n).outcome.Success? {
      var accepted, done, c, used := PrefixLast(source, pos, store, n);
      PrefixAccepted(source, pos, store, n - 1);
      AcceptedInOrderExtend(store, accepted, c);
    }
  }

  /** Every candidate of `cs` ended its loop against the committed rows plus
      the rows of the candidates before it; stated from the last candidate
      backwards, as the batch adds them. */
  ghost predicate AcceptedInOrder(store: seq<JokeRecord>, cs: seq<Candidate>)
    decreases |cs|
  {
    cs == [] ||
    (AcceptedInOrder(store, cs[..|cs| - 1]) && Accepted(cs[|cs| - 1], store + ToRecords(cs[..|cs| - 1])))
  }

  lemma AcceptedInOrderExtend(store: seq<JokeRecord>, cs: seq<Candidate>, c: Candidate)
    requires AcceptedInOrder(store, cs) && Accepted(c, store + ToRecords(cs))
    ensures AcceptedInOrder(store, cs + [c])
  {
    assert (cs + [c])[..|cs|] == cs;
  }

  /** The candidate at any index of an in-order sequence was accepted against
      the rows of the candidates before it. */
  lemma {:induction false} AcceptedInOrderAt(store: seq<JokeRecord>, cs: seq<Candidate>, i: nat)
    requires AcceptedInOrder(store, cs) && i < |cs|
    ensures Accepted(cs[i], store + ToRecords(cs[..i]))
    decreases |cs|
  {
    if i < |cs| - 1 {
      var front := cs[..|cs| - 1];
      AcceptedInOrderAt(store, front, i);
      assert front[i] == cs[i] && front[..i] == cs[..i];
    }
  }

  /** A successful batch has maxJokes candidates, and each is non-explicit
      or had its id among the committed rows or the rows added by the
      earlier iterations. */
  lemma BatchAccepted(source: seq<Option<Candidate>>, pos: nat, store: seq<JokeRecord>, maxJokes: nat)
    requires pos <= |source|
    ensures var b := Batch(source, pos, store, maxJokes);
      b.outcome.Success? ==>
        |b.outcome.value| == maxJokes &&
        forall i :: 0 <= i < maxJokes ==>
          Accepted(b.outcome.value[i], store + ToRecords(b.outcome.value[..i]))
  {
    PrefixAccepted(source, pos, store, maxJokes);
    var b := Batch(source, pos, store, maxJokes);
    if b.outcome.Success? {
      forall i | 0 <= i < maxJokes
        ensures Accepted(b.outcome.value[i], store + ToRecords(b.outcome.value[..i]))
      {
        AcceptedInOrderAt(store, b.outcome.value, i);
      }
    }
  }

  /** `cs` are the candidates returned by one call each, made one after the
      other from `pos`: call `i` starts at response `pos + starts[i]`, right
      where call `i - 1` stopped, runs against the committed rows plus the
      rows of exactly the candidates before it, and returns `cs[i]`; stated
      from the last call backwards. */
  ghost predicate Calls(source: seq<Option<Candidate>>, pos: nat, store: seq<JokeRecord>,
                        starts: seq<nat>, cs: seq<Candidate>)
    decreases |cs|
  {
    if cs == [] then starts == [0]
    else
      var m := |cs| - 1;
      |starts| == |cs| + 1 && starts[m] < starts[m + 1] && pos + starts[m] <= |source| &&
      Acquire(source, pos + starts[m], store + ToRecords(cs[..m])) ==
        Acquired(Success(cs[m]), starts[m + 1] - starts[m]) &&
      Calls(source, pos, store, starts[..m + 1], cs[..m])
  }

  /** The calls of a successful run of `n` iterations, one by one; together
      they consume what the run consumed. */
  lemma {:induction false} PrefixCalls(source: seq<Option<Candidate>>, pos: nat, store: seq<JokeRecord>, n: nat)
    returns (starts: seq<nat>)
    requires pos <= |source|
    ensures var b := BatchPrefix(source, pos, store, n);
      b.outcome.Success? ==>
        |starts| == n + 1 && starts[n] == b.consumed && Calls(source, pos, store, starts, b.outcome.value)
    decreases n
  {
    starts := [0];
    if n > 0 && BatchPrefix(source, pos, store, n).outcome.Success? {
      var accepted, done, c, used := PrefixLast(source, pos, store, n);
      var front := PrefixCalls(source, pos, store, n - 1);
      AcquireSucceedsIff(source, pos + done, store + ToRecords(accepted), c, used);
      starts := front + [done + used];
      assert starts[..n] == front && (accepted + [c])[..n - 1] == accepted;
    }
  }

  /** The call at any index, in indexed form: it skipped only explicit
      responses absent from its table before returning its candidate. */
  lemma {:induction false} CallsAt(source: seq<Option<Candidate>>, pos: nat, store: seq<JokeRecord>,
                                   starts: seq<nat>, cs: seq<Candidate>, i: nat)
    requires Calls(source, pos, store, starts, cs) && i < |cs|
    ensures |starts| == |cs| + 1 && starts[0] == 0
    ensures starts[i] < starts[i + 1] && pos + starts[i] <= |source|
    ensures Acquire(source, pos + starts[i], store + ToRecords(cs[..i])) ==
      Acquired(Success(cs[i]), starts[i + 1] - starts[i])
    ensures RejectedRun(source, pos + starts[i], starts[i + 1] - starts[i] - 1, store + ToRecords(cs[..i]))
    decreases |cs|
  {
    var m := |cs| - 1;
    if m > 0 {
      var front, rest := starts[..m + 1], cs[..m];
      CallsAt(source, pos, store, front, rest, if i < m then i else 0);
      if i < m {
        assert front[i] == starts[i] && front[i + 1] == starts[i + 1] && rest[i] == cs[i] && rest[..i] == cs[..i];
      }
    }
    AcquireSucceedsIff(source, pos + starts[i], store + ToRecords(cs[..i]), cs[i], starts[i + 1] - starts[i]);
  }

  /** A successful batch of `maxJokes` iterations, call by call: call `i`
      resumes where call `i - 1` stopped, runs against the committed rows
      plus the rows of the candidates accepted before it, and returns
      candidate `i`; the calls together consume what the batch consumed.
      Every response call `i` skipped was explicit and absent from that
      table, whose rows include those of the earlier candidates. */
  lemma BatchCalls(source: seq<Option<Candidate>>, pos: nat, store: seq<JokeRecord>, maxJokes: nat)
    returns (starts: seq<nat>)
    requires pos <= |source|
    ensures var b := Batch(source, pos, store, maxJokes);
      b.outcome.Success? ==>
        |starts| == maxJokes + 1 && starts[0] == 0 && starts[maxJokes] == b.consumed &&
        forall i :: 0 <= i < maxJokes ==>
          starts[i] < starts[i + 1] && pos + starts[i] <= |source| &&
          Acquire(source, pos + starts[i], store + ToRecords(b.outcome.value[..i])) ==
            Acquired(Success(b.outcome.value[i]), starts[i + 1] - starts[i]) &&
          RejectedRun(source, pos + starts[i], starts[i + 1] - starts[i] - 1, store + ToRecords(b.outcome.value[..i]))
  {
    starts := PrefixCalls(source, pos, store, maxJokes);
    var b := Batch(source, pos, store, maxJokes);
    if b.outcome.Success? {
      if maxJokes == 0 {
        assert starts == [0];
      } else {
        CallsAt(source, pos, store, starts, b.outcome.value, 0);
      }
      forall i | 0 <= i < maxJokes
        ensures starts[i] < starts[i + 1] && pos + starts[i] <= |source|
        ensures Acquire(source, pos + starts[i], store + ToRecords(b.outcome.value[..i])) ==
          Acquired(Success(b.outcome.value[i]), starts[i + 1] - starts[i])
        ensures RejectedRun(source, pos + starts[i], starts[i + 1] - starts[i] - 1, store + ToRecords(b.outcome.value[..i]))
      {
        CallsAt(source, pos, store, starts, b.outcome.value, i);
      }
    }
  }

  /** The exit rule in terms of ids: a candidate accepted against the
      committed rows plus the rows of the candidates before it is
      non-explicit, or its id is among the committed ids or those
      candidates' ids. */
  lemma AcceptedByIds(store: seq<JokeRecord>, cs: seq<Candidate>)
    requires forall i :: 0 <= i < |cs| ==> Accepted(cs[i], store + ToRecords(cs[..i]))
    ensures forall i :: 0 <= i < |cs| ==>
      !IsExplicit(cs[i]) || IsStored(store, cs[i].id) || exists k :: 0 <= k < i && cs[k].id == cs[i].id
  {
    forall i | 0 <= i < |cs|
      ensures !IsExplicit(cs[i]) || IsStored(store, cs[i].id) || exists k :: 0 <= k < i && cs[k].id == cs[i].id
    {
      IsStoredAfterInsert(store, cs[..i], cs[i].id);
      if IsExplicit(cs[i]) && !IsStored(store, cs[i].id) {
        var c :| c in cs[..i] && c.id == cs[i].id;
        var k :| 0 <= k < i && cs[..i][k] == c;
        assert cs[k].id == cs[i].id;
      }
    }
  }

  /** No iteration consumes more responses than the cap of attempts. */
  lemma {:induction false} PrefixConsumption(source: seq<Option<Candidate>>, pos: nat, store: seq<JokeRecord>, n: nat)
    requires pos <= |source|
    ensures BatchPrefix(source, pos, store, n).consumed <= MaxAttempts * n
    decreases n
  {
    if n > 0 {
      PrefixConsumption(source, pos, store, n - 1);
    }
  }

  /** `cs` are the responses of `source` at the positions `ps`, which lie in
      [lo, hi) and increase strictly; stated from the last one backwards. */
  ghost predicate Delivered(source: seq<Option<Candidate>>, lo: nat, hi: nat, ps: seq<nat>, cs: seq<Candidate>)
    decreases |ps|
  {
    if ps == [] then cs == []
    else
      var last := |ps| - 1;
      |cs| == |ps| && lo <= ps[last] < hi && ps[last] < |source| && source[ps[last]] == Some(cs[last]) &&
      Delivered(source, lo, ps[last], ps[..last], cs[..last])
  }

  lemma DeliveredExtend(source: seq<Option<Candidate>>, lo: nat, hi: nat, ps: seq<nat>, cs: seq<Candidate>,
                        p: nat, c: Candidate, hi': nat)
    requires Delivered(source, lo, hi, ps, cs)
    requires lo <= hi <= p < hi' && p < |source| && source[p] == Some(c)
    ensures Delivered(source, lo, hi', ps + [p], cs + [c])
  {
    assert (ps + [p])[..|ps|] == ps && (cs + [c])[..|cs|] == cs;
    if ps != [] {
      assert Delivered(source, lo, p, ps, cs);
    }
  }

  /** The indexed form: every candidate is the response at its position, the
      positions lie in [lo, hi) and increase strictly. */
  lemma {:induction false} DeliveredAt(source: seq<Option<Candidate>>, lo: nat, hi: nat, ps: seq<nat>, cs: seq<Candidate>)
    requires Delivered(source, lo, hi, ps, cs)
    ensures |ps| == |cs|
    ensures forall i :: 0 <= i < |ps| ==> lo <= ps[i] < hi && ps[i] < |source| && source[ps[i]] == Some(cs[i])
    ensures forall i, j :: 0 <= i < j < |ps| ==> ps[i] < ps[j]
    decreases |ps|
  {
    if ps != [] {
      var last := |ps| - 1;
      DeliveredAt(source, lo, ps[last], ps[..last], cs[..last]);
      assert forall i :: 0 <= i < last ==> ps[..last][i] == ps[i] && cs[..last][i] == cs[i];
    }
  }

  /** Each candidate of a successful run of `n` iterations is a response the
      endpoint delivered, at strictly increasing positions inside the
      consumed responses. */
  lemma {:induction false} PrefixResponses(source: seq<Option<Candidate>>, pos: nat, store: seq<JokeRecord>, n: nat)
    returns (ps: seq<nat>)
    requires pos <= |source|
    ensures var b := BatchPrefix(source, pos, store, n);
      b.outcome.Success? ==> Delivered(source, pos, pos + b.consumed, ps, b.outcome.value)
    decreases n
  {
    ps := [];
    if n > 0 && BatchPrefix(source, pos, store, n).outcome.Success? {
      var accepted, done, c, used := PrefixLast(source, pos, store, n);
      var front := PrefixResponses(source, pos, store, n - 1);
      ResponsesStep(source, pos, store, accepted, done, c, used, front);
      var last := pos + done + used - 1;
      ps := front + [last];
    }
  }

  /** The call of one more iteration takes its candidate from the last
      response it consumed. */
  lemma ResponsesStep(source: seq<Option<Candidate>>, pos: nat, store: seq<JokeRecord>,
                      accepted: seq<Candidate>, done: nat, c: Candidate, used: nat, front: seq<nat>)
    requires pos + done <= |source| && Delivered(source, pos, pos + done, front, accepted)
    requires Acquire(source, pos + done, store + ToRecords(accepted)) == Acquired(Success(c), used)
    ensures used >= 1
    ensures Delivered(source, pos, pos + done + used, front + [pos + done + used - 1], accepted + [c])
  {
    AcquireSucceedsIff(source, pos + done, store + ToRecords(accepted), c, used);
    DeliveredExtend(source, pos, pos + done, front, accepted, pos + done + used - 1, c, pos + done + used);
  }

  /** A successful batch took each of its candidates from a response the
      endpoint delivered, in the order the responses were consumed. */
  lemma BatchResponses(source: seq<Option<Candidate>>, pos: nat, store: seq<JokeRecord>, maxJokes: nat)
    returns (ps: seq<nat>)
    requires pos <= |source|
    ensures var b := Batch(source, pos, store, maxJokes);
      b.outcome.Success? ==>
        |ps| == maxJokes &&
        (forall i :: 0 <= i < maxJokes ==>
           pos <= ps[i] < pos + b.consumed && source[ps[i]] == Some(b.outcome.value[i])) &&
        (forall i, j :: 0 <= i < j < maxJokes ==> ps[i] < ps[j])
  {
    ps := PrefixResponses(source, pos, store, maxJokes);
    var b := Batch(source, pos, store, maxJokes);
    if b.outcome.Success? {
      DeliveredAt(source, pos, pos + b.consumed, ps, b.outcome.value);
    }
  }

  /** With a cooperative endpoint, whose first `n` responses are all
      non-explicit candidates, the first `n` iterations accept exactly those,
      in order, one response each. */
  lemma {:induction false} PrefixCooperative(source: seq<Option<Candidate>>, pos: nat, store: seq<JokeRecord>, n: nat)
    requires pos + n <= |source|
    requires forall k :: pos <= k < pos + n ==> source[k].Some? && !IsExplicit(source[k].value)
    ensures var b := BatchPrefix(source, pos, store, n);
      b.consumed == n && b.outcome.Success? &&
      forall k :: pos <= k < pos + n ==> source[k] == Some(b.outcome.value[k - pos])
    decreases n
  {
    if n > 0 {
      PrefixCooperative(source, pos, store, n - 1);
      var prev := BatchPrefix(source, pos, store, n - 1);
      var next := pos + (n - 1);
      AcquireFromStep(source, next, store + ToRecords(prev.outcome.value), MaxAttempts);
      assert Acquire(source, next, store + ToRecords(prev.outcome.value)) == Acquired(Success(source[next].value), 1);
    }
  }

  lemma BatchCooperative(source: seq<Option<Candidate>>, pos: nat, store: seq<JokeRecord>, maxJokes: nat)
    requires pos + maxJokes <= |source|
    requires forall k :: pos <= k < pos + maxJokes ==> source[k].Some? && !IsExplicit(source[k].value)
    ensures var b := Batch(source, pos, store, maxJokes);
      b.consumed == maxJokes && b.outcome.Success? &&
      |Committed(store, b)| == |store| + maxJokes &&
      forall k :: pos <= k < pos + maxJokes ==>
        source[k].Some? && Committed(store, b)[|store| + (k - pos)] == ToRecord(source[k].value)
  {
    PrefixCooperative(source, pos, store, maxJokes);
    var b := Batch(source, pos, store, maxJokes);
    forall k | pos <= k < pos + maxJokes
      ensures Committed(store, b)[|store| + (k - pos)] == ToRecord(source[k].value)
    {
      ToRecordsAt(b.outcome.value, k - pos);
    }
  }
}
