/** The once-only cache of `load_data`: the first call that reads the three
    files successfully stores them, and every later call returns the stored
    tables without reading again. The read itself is abstract: each call is
    given what reading the files would produce at that moment. */
module Loader {
  import opened Wrappers
  import opened Tables

  /** A read that raised: a missing file, or a cell the declared column
      type cannot hold. */
  datatype LoadError = ReadFailed

  /** What reading the three files would give at the time of a call. */
  type Storage = Result<Tables, LoadError>

  /** The process-wide cache and the number of times the files were read. */
  datatype LoaderState = LoaderState(cache: Option<Tables>, readCount: nat)

  /** The state of a fresh process: nothing cached, nothing read. */
  const Initial: LoaderState := LoaderState(None, 0)

  /** One call of `load_data`: its result and the state after it. */
  datatype LoadStep = LoadStep(state: LoaderState, result: Storage)

  /** `load_data()`. A failed read raises before anything is cached. */
  function Load(s: LoaderState, storage: Storage): (r: LoadStep)
    ensures r.result.Success? ==> r.state.cache == Some(r.result.value)
    ensures s.cache.Some? ==> r.state == s && r.result == Success(s.cache.value)
    ensures s.cache.None? ==> r.state.readCount == s.readCount + 1 && r.result == storage
    ensures s.cache.None? && storage.Failure? ==> r.state.cache.None?
  {
    match s.cache
    case Some(t) => LoadStep(s, Success(t))
    case None =>
      var cache := match storage case Success(t) => Some(t) case Failure(_) => None;
      LoadStep(LoaderState(cache, s.readCount + 1), storage)
  }

  /** Successive calls of `load_data` in one process; `storages[i]` is what
      reading would give at call `i`. Returns the final state and the
      result of every call. */
  function Session(s: LoaderState, storages: seq<Storage>): (r: (LoaderState, seq<Storage>))
    ensures |r.1| == |storages|
    ensures r.0.readCount >= s.readCount
    decreases |storages|
  {
    if |storages| == 0 then (s, [])
    else
      var step := Load(s, storages[0]);
      var rest := Session(step.state, storages[1..]);
      (rest.0, [step.result] + rest.1)
  }

  /** Once the cache holds tables, no call reads again and every call
      returns those same tables, whatever the files now contain. */
  lemma {:induction false} CachedSessionNeverReads(s: LoaderState, storages: seq<Storage>)
    requires s.cache.Some?
    ensures Session(s, storages).0 == s
    ensures forall i :: 0 <= i < |storages| ==> Session(s, storages).1[i] == Success(s.cache.value)
  {
    if |storages| > 0 {
      CachedSessionNeverReads(s, storages[1..]);
    }
  }

  /** In a fresh process the files are read until the first successful read
      and never after it: with the first success at call `k`, there are
      exactly `k + 1` reads, calls up to `k` return what was read, and every
      later call returns the tables of call `k`. */
  lemma {:induction false} SessionReadsUntilFirstSuccess(s: LoaderState, storages: seq<Storage>, k: nat)
    requires s.cache.None?
    requires k < |storages| && storages[k].Success?
    requires forall j :: 0 <= j < k ==> storages[j].Failure?
    ensures Session(s, storages).0 == LoaderState(Some(storages[k].value), s.readCount + k + 1)
    ensures forall i :: 0 <= i <= k ==> Session(s, storages).1[i] == storages[i]
    ensures forall i :: k < i < |storages| ==> Session(s, storages).1[i] == storages[k]
    decreases k
  {
    var step := Load(s, storages[0]);
    var out := Session(s, storages);
    if k == 0 {
      CachedSessionNeverReads(step.state, storages[1..]);
      assert forall i :: 0 < i < |storages| ==> out.1[i] == Session(step.state, storages[1..]).1[i - 1];
    } else {
      SessionReadsUntilFirstSuccess(step.state, storages[1..], k - 1);
      assert forall i :: 0 < i < |storages| ==> out.1[i] == Session(step.state, storages[1..]).1[i - 1];
    }
  }

  /** While every read fails, nothing is ever cached: each call reads the
      files again and raises what that read raised. */
  lemma {:induction false} FailingSessionAlwaysReads(s: LoaderState, storages: seq<Storage>)
    requires s.cache.None?
    requires forall j :: 0 <= j < |storages| ==> storages[j].Failure?
    ensures Session(s, storages).0 == LoaderState(None, s.readCount + |storages|)
    ensures Session(s, storages).1 == storages
    decreases |storages|
  {
    if |storages| > 0 {
      var step := Load(s, storages[0]);
      FailingSessionAlwaysReads(step.state, storages[1..]);
      assert storages == [storages[0]] + storages[1..];
    }
  }

  /** Whenever every read would succeed, a process reads the files at most
      once, and every call returns the tables of the first call. */
  lemma ReadAtMostOnce(storages: seq<Storage>)
    requires forall j :: 0 <= j < |storages| ==> storages[j].Success?
    ensures Session(Initial, storages).0.readCount <= 1
    ensures forall i :: 0 <= i < |storages| ==> Session(Initial, storages).1[i] == storages[0]
  {
    if |storages| > 0 {
      SessionReadsUntilFirstSuccess(Initial, storages, 0);
    }
  }
}
