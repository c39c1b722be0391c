/**
 * What the hosted record store answers, and the rules both service modules
 * apply to an answer. The store itself is not modelled: every answer is an input.
 */
module Remote {
  import opened Wrappers

  /** The answer to `fetchRecords`: `success` and the records in `data`. */
  datatype FetchResponse<T> = FetchResponse(success: bool, data: seq<T>)

  /** The answer to `getRecordById`: `success` and a record in `data` that may be missing. */
  datatype GetResponse<T> = GetResponse(success: bool, data: Option<T>)

  /** One entry of `results`: `{success: true, data}` or `{success: false, message}`. */
  datatype RecordResult<T> = Succeeded(data: T) | Failed(message: Option<string>)

  /** The answer to `createRecord`, `updateRecord` and `deleteRecord`; `results` may be missing. */
  datatype MutationResponse<T> = MutationResponse(success: bool, results: Option<seq<RecordResult<T>>>)

  /** `results.filter(result => result.success)`, keeping the records' data, in order. */
  function Successes<T>(rs: seq<RecordResult<T>>): (ds: seq<T>)
    ensures |ds| <= |rs|
    ensures forall d :: d in ds ==> Succeeded(d) in rs
  {
    if |rs| == 0 then []
    else if rs[0].Succeeded? then [rs[0].data] + Successes(rs[1..])
    else Successes(rs[1..])
  }

  /** Some entry succeeded exactly when the filter is non-empty, and its head is the data of the first such entry. */
  lemma {:induction false} SuccessesHead<T>(rs: seq<RecordResult<T>>)
    ensures |Successes(rs)| > 0 <==> exists i :: 0 <= i < |rs| && rs[i].Succeeded?
    ensures |Successes(rs)| > 0 ==>
      exists i :: 0 <= i < |rs| && rs[i] == Succeeded(Successes(rs)[0]) && forall k :: 0 <= k < i ==> rs[k].Failed?
  {
    if |rs| > 0 && rs[0].Failed? {
      var tail := rs[1..];
      SuccessesHead(tail);
      assert forall i :: 0 < i < |rs| ==> rs[i] == tail[i - 1];
      if |Successes(tail)| > 0 {
        var i :| 0 <= i < |tail| && tail[i] == Succeeded(Successes(tail)[0]) && forall k :: 0 <= k < i ==> tail[k].Failed?;
        assert rs[i + 1] == Succeeded(Successes(rs)[0]);
        assert forall k :: 0 <= k < i + 1 ==> rs[k].Failed?;
      }
    }
  }

  /**
   * The create and update rule: the data of the FIRST successful entry of `results`;
   * the operation throws `failure` when the call failed, `results` is missing, or no entry succeeded.
   */
  function FirstSuccess<T>(resp: MutationResponse<T>, failure: string): (r: Result<T>)
    ensures r.Ok? <==>
      resp.success && resp.results.Some? && exists i :: 0 <= i < |resp.results.value| && resp.results.value[i].Succeeded?
    ensures r.Ok? ==>
      exists i :: 0 <= i < |resp.results.value| && resp.results.value[i] == Succeeded(r.value)
        && forall k :: 0 <= k < i ==> resp.results.value[k].Failed?
    ensures r.Err? ==> r.message == failure
  {
    if !resp.success then Err(failure)
    else if resp.results.Some? then
      var ds := Successes(resp.results.value);
      SuccessesHead(resp.results.value);
      if |ds| > 0 then Ok(ds[0]) else Err(failure)
    else Err(failure)
  }

  /**
   * The delete rule: `true` exactly when `results` is present and some entry succeeded,
   * `false` when `results` is missing; a failed call throws `failure`.
   */
  function AnySuccess<T>(resp: MutationResponse<T>, failure: string): (r: Result<bool>)
    ensures r.Err? <==> !resp.success
    ensures r.Err? ==> r.message == failure
    ensures r == Ok(true) <==>
      resp.success && resp.results.Some? && exists i :: 0 <= i < |resp.results.value| && resp.results.value[i].Succeeded?
    ensures resp.success && resp.results.None? ==> r == Ok(false)
  {
    if !resp.success then Err(failure)
    else if resp.results.Some? then
      SuccessesHead(resp.results.value);
      Ok(|Successes(resp.results.value)| > 0)
    else Ok(false)
  }
}
