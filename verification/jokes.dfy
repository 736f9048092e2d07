/** The values the import program works with: the candidate joke that the
    random-joke endpoint delivers, the row of the ChuckNorrisJokes table it
    becomes, and the duplicate test over the rows already stored. */
module Jokes {

  datatype Option<+T> = None | Some(value: T)

  datatype Result<+T, +E> = Success(value: T) | Failure(error: E)

  /** A joke as deserialised from the endpoint's JSON body. The creation and
      update timestamps and the icon URL are never read and are left out. */
  datatype Candidate = Candidate(categories: seq<string>, id: string, url: string, value: string)

  /** A row of the ChuckNorrisJokes table, without the surrogate key that
      storage assigns. */
  datatype JokeRecord = JokeRecord(chuckNorrisId: string, url: string, joke: string)

  /** What `new ChuckNorrisJokeData()` holds before anything is deserialised. */
  const EmptyCandidate := Candidate([], "", "", "")

  const ExplicitCategory := "explicit"

  /** `Categories.FirstOrDefault()`: the first label, or nothing for an empty array. */
  function FirstOrDefault(categories: seq<string>): Option<string> {
    if categories == [] then None else Some(categories[0])
  }

  /** The filter of the acquisition loop: the first category is "explicit". */
  predicate IsExplicit(c: Candidate) {
    FirstOrDefault(c.categories) == Some(ExplicitCategory)
  }

  /** The mapping of a candidate to a new row: Id to ChuckNorrisId, Url to Url
      and Value to Joke. */
  function ToRecord(c: Candidate): JokeRecord {
    JokeRecord(c.id, c.url, c.value)
  }

  /** `FirstOrDefault() != "explicit"` is false exactly for a candidate whose
      category array is non-empty and starts with "explicit": an empty array
      yields null, which differs from "explicit". */
  lemma IsExplicitIff(c: Candidate)
    ensures IsExplicit(c) <==> |c.categories| > 0 && c.categories[0] == ExplicitCategory
    ensures c.categories == [] ==> !IsExplicit(c)
  {
  }

  /** The rows for a sequence of candidates, in the same order. */
  function ToRecords(cs: seq<Candidate>): (rs: seq<JokeRecord>)
    ensures |rs| == |cs|
  {
    if cs == [] then [] else [ToRecord(cs[0])] + ToRecords(cs[1..])
  }

  lemma {:induction false} ToRecordsAt(cs: seq<Candidate>, i: nat)
    requires i < |cs|
    ensures ToRecords(cs)[i] == ToRecord(cs[i])
  {
    if i > 0 {
      ToRecordsAt(cs[1..], i - 1);
    }
  }

  /** Row `i` copies the Id, Url and Value of candidate `i`, for every `i`. */
  lemma ToRecordsEach(cs: seq<Candidate>)
    ensures forall i :: 0 <= i < |cs| ==>
      ToRecords(cs)[i] == JokeRecord(cs[i].id, cs[i].url, cs[i].value)
  {
    forall i | 0 <= i < |cs|
      ensures ToRecords(cs)[i] == JokeRecord(cs[i].id, cs[i].url, cs[i].value)
    {
      ToRecordsAt(cs, i);
    }
  }

  lemma {:induction false} ToRecordsConcat(a: seq<Candidate>, b: seq<Candidate>)
    ensures ToRecords(a + b) == ToRecords(a) + ToRecords(b)
  {
    if a == [] {
      assert a + b == b;
    } else {
      assert (a + b)[0] == a[0] && (a + b)[1..] == a[1..] + b;
      ToRecordsConcat(a[1..], b);
    }
  }

  /** The duplicate query: some stored row carries this ChuckNorrisId. */
  predicate IsStored(store: seq<JokeRecord>, id: string) {
    exists r :: r in store && r.chuckNorrisId == id
  }

  /** The duplicate query over no rows finds nothing; after one more row it
      finds the ids found before plus that row's ChuckNorrisId. */
  lemma IsStoredAppend(store: seq<JokeRecord>, r: JokeRecord, id: string)
    ensures !IsStored([], id)
    ensures IsStored(store + [r], id) <==> IsStored(store, id) || r.chuckNorrisId == id
  {
    assert r in store + [r];
    forall q | q in store + [r]
      ensures q in store || q == r
    {
    }
  }

  /** After rows for `cs` are added, the duplicate query sees exactly the ids
      stored before plus the ids of `cs`. */
  lemma IsStoredAfterInsert(store: seq<JokeRecord>, cs: seq<Candidate>, id: string)
    ensures IsStored(store + ToRecords(cs), id) <==> IsStored(store, id) || exists c :: c in cs && c.id == id
  {
    if exists c :: c in cs && c.id == id {
      var c :| c in cs && c.id == id;
      var i :| 0 <= i < |cs| && cs[i] == c;
      ToRecordsAt(cs, i);
      assert (store + ToRecords(cs))[|store| + i] == ToRecord(c);
    }
    if IsStored(store + ToRecords(cs), id) && !IsStored(store, id) {
      var r :| r in store + ToRecords(cs) && r.chuckNorrisId == id;
      var j :| 0 <= j < |store + ToRecords(cs)| && (store + ToRecords(cs))[j] == r;
      if j >= |store| {
        ToRecordsAt(cs, j - |store|);
        assert cs[j - |store|] in cs;
      }
    }
  }
}
