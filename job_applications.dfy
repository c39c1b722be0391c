/**
 * The job-application service: the read mapping of stored records, the
 * write mapping of create and update, the create, update and delete outcome
 * rules, and the two client-side aggregations over the fetched list,
 * `getByStatus` and `getStatusCounts`.
 */
module JobApplications {
  import opened Wrappers
  import opened Strings
  import opened Unique
  import opened Remote

  // ---------------------------------------------------------------------
  // Records
  // ---------------------------------------------------------------------

  /** A `job_application` record as the store returns it; fields may be missing. */
  datatype StoredApplication = StoredApplication(
    Id: int, Name: Option<string>, title: Option<string>, company: Option<string>, status: Option<string>,
    applied_date: Option<string>, salary_min: Option<real>, salary_max: Option<real>,
    salary_currency: Option<string>, location: Option<string>, notes: Option<string>, job_url: Option<string>,
    CreatedOn: Option<string>, ModifiedOn: Option<string>)

  /** The salary block of an application; a bound is `None` for `null`. */
  datatype Salary = Salary(min: Option<real>, max: Option<real>, currency: string)

  /** An application as the service hands it to its callers. */
  datatype Application = Application(
    Id: int, title: string, company: string, status: string, appliedDate: string, salary: Salary,
    location: string, notes: string, jobUrl: string, createdAt: Option<string>, updatedAt: Option<string>)

  /** The salary block a caller passes; it may be missing as a whole (`application.salary?.min`). */
  datatype SalaryInput = SalaryInput(min: Option<real>, max: Option<real>, currency: Option<string>)

  /** An application as a caller passes it to create or update. */
  datatype ApplicationInput = ApplicationInput(
    title: Option<string>, company: Option<string>, status: Option<string>, appliedDate: Option<string>,
    salary: Option<SalaryInput>, location: Option<string>, notes: Option<string>, jobUrl: Option<string>)

  /** The record create (`Id` absent) and update (`Id` = the parsed id) send to the store. */
  datatype ApplicationRecord = ApplicationRecord(
    Id: Option<int>, Name: string, title: string, company: string, status: string, applied_date: string,
    salary_min: Option<real>, salary_max: Option<real>, salary_currency: string,
    location: string, notes: string, job_url: string)

  const APPLIED := "applied"
  const USD := "USD"
  const UNTITLED_APPLICATION := "Untitled Application"

  /** JavaScript `n || null` on a number that may be missing: `0` and a missing value both give `null`. */
  function AmountOrNull(n: Option<real>): (r: Option<real>)
    ensures r != Some(0.0)
    ensures n.Some? && n.value != 0.0 ==> r == n
    ensures n.None? || n.value == 0.0 ==> r.None?
  {
    if n.Some? && n.value != 0.0 then n else None
  }

  /** The read mapping of `getAll`, `getById` and the create and update results. */
  function FromStored(item: StoredApplication): (a: Application)
    ensures a.Id == item.Id && a.createdAt == item.CreatedOn && a.updatedAt == item.ModifiedOn
    ensures a.status != "" && a.salary.currency != ""
    ensures item.status.None? || item.status.value == "" ==> a.status == APPLIED
    ensures item.status.Some? && item.status.value != "" ==> a.status == item.status.value
    ensures item.salary_currency.None? || item.salary_currency.value == "" ==> a.salary.currency == USD
    ensures a.salary.min != Some(0.0) && a.salary.max != Some(0.0)
    ensures item.salary_min.Some? && item.salary_min.value != 0.0 ==> a.salary.min == item.salary_min
    ensures item.salary_max.Some? && item.salary_max.value != 0.0 ==> a.salary.max == item.salary_max
    ensures a.salary.min == AmountOrNull(item.salary_min) && a.salary.max == AmountOrNull(item.salary_max)
    ensures a.salary.currency == OrDefault(item.salary_currency, USD)
    ensures a.title == OrDefault(item.title, "") && a.company == OrDefault(item.company, "")
    ensures a.appliedDate == OrDefault(item.applied_date, "") && a.location == OrDefault(item.location, "")
    ensures a.notes == OrDefault(item.notes, "") && a.jobUrl == OrDefault(item.job_url, "")
  {
    Application(
      item.Id, OrDefault(item.title, ""), OrDefault(item.company, ""), OrDefault(item.status, APPLIED),
      OrDefault(item.applied_date, ""),
      Salary(AmountOrNull(item.salary_min), AmountOrNull(item.salary_max), OrDefault(item.salary_currency, USD)),
      OrDefault(item.location, ""), OrDefault(item.notes, ""), OrDefault(item.job_url, ""),
      item.CreatedOn, item.ModifiedOn)
  }

  /** The write mapping shared by create and update; `appliedDefault` fills a missing `appliedDate`. */
  function ToRecord(id: Option<int>, app: ApplicationInput, appliedDefault: string): (r: ApplicationRecord)
    ensures r.Id == id
    ensures r.Name != "" && r.status != "" && r.salary_currency != ""
    ensures app.title.Some? && app.title.value != "" ==> r.Name == app.title.value && r.title == app.title.value
    ensures app.title.None? || app.title.value == "" ==> r.Name == UNTITLED_APPLICATION && r.title == ""
    ensures app.status.None? || app.status.value == "" ==> r.status == APPLIED
    ensures app.status.Some? && app.status.value != "" ==> r.status == app.status.value
    ensures app.appliedDate.Some? && app.appliedDate.value != "" ==> r.applied_date == app.appliedDate.value
    ensures app.company.Some? && app.company.value != "" ==> r.company == app.company.value
    ensures r.salary_min != Some(0.0) && r.salary_max != Some(0.0)
    ensures app.salary.None? ==> r.salary_min.None? && r.salary_max.None? && r.salary_currency == USD
    ensures var s := if app.salary.Some? then app.salary.value else SalaryInput(None, None, None);
      r.salary_min == AmountOrNull(s.min) && r.salary_max == AmountOrNull(s.max)
      && r.salary_currency == OrDefault(s.currency, USD)
    ensures r.company == OrDefault(app.company, "") && r.applied_date == OrDefault(app.appliedDate, appliedDefault)
    ensures r.location == OrDefault(app.location, "") && r.notes == OrDefault(app.notes, "")
    ensures r.job_url == OrDefault(app.jobUrl, "")
  {
    var salary := if app.salary.Some? then app.salary.value else SalaryInput(None, None, None);
    ApplicationRecord(
      id, OrDefault(app.title, UNTITLED_APPLICATION), OrDefault(app.title, ""), OrDefault(app.company, ""),
      OrDefault(app.status, APPLIED), OrDefault(app.appliedDate, appliedDefault),
      AmountOrNull(salary.min), AmountOrNull(salary.max), OrDefault(salary.currency, USD),
      OrDefault(app.location, ""), OrDefault(app.notes, ""), OrDefault(app.jobUrl, ""))
  }

  /** `create`: no `Id`; a missing `appliedDate` becomes `today` (the caller's clock, `YYYY-MM-DD`). */
  function ForCreate(app: ApplicationInput, today: string): (r: ApplicationRecord)
    ensures r.Id.None?
    ensures app.appliedDate.None? || app.appliedDate.value == "" ==> r.applied_date == today
    ensures app.appliedDate.Some? && app.appliedDate.value != "" ==> r.applied_date == app.appliedDate.value
  {
    ToRecord(None, app, today)
  }

  /** `update`: the parsed id; a missing `appliedDate` is sent as `''`. */
  function ForUpdate(id: int, app: ApplicationInput): (r: ApplicationRecord)
    ensures r.Id == Some(id)
    ensures app.appliedDate.None? || app.appliedDate.value == "" ==> r.applied_date == ""
  {
    ToRecord(Some(id), app, "")
  }

  /** The record as the store holds it after a write of `r`, with its id and timestamps. */
  function Stored(id: int, r: ApplicationRecord, createdOn: Option<string>, modifiedOn: Option<string>): StoredApplication
  {
    StoredApplication(
      id, Some(r.Name), Some(r.title), Some(r.company), Some(r.status), Some(r.applied_date),
      r.salary_min, r.salary_max, Some(r.salary_currency), Some(r.location), Some(r.notes), Some(r.job_url),
      createdOn, modifiedOn)
  }

  /** An application put back into the edit form unchanged. */
  function AsInput(a: Application): ApplicationInput
  {
    ApplicationInput(
      Some(a.title), Some(a.company), Some(a.status), Some(a.appliedDate),
      Some(SalaryInput(a.salary.min, a.salary.max, Some(a.salary.currency))),
      Some(a.location), Some(a.notes), Some(a.jobUrl))
  }

  /**
   * Normalisation is idempotent: an application read from the store, sent back
   * unchanged through `update`, and read again has the same fields.
   */
  lemma UpdateRoundTripIsStable(item: StoredApplication, createdOn: Option<string>, modifiedOn: Option<string>)
    ensures var a := FromStored(item);
      var b := FromStored(Stored(item.Id, ForUpdate(item.Id, AsInput(a)), createdOn, modifiedOn));
      b == a.(createdAt := createdOn, updatedAt := modifiedOn)
  {
  }

  /** What a write sends is what a read of it returns: the write already applies every read default. */
  lemma WriteThenRead(id: int, key: Option<int>, app: ApplicationInput, appliedDefault: string,
                      createdOn: Option<string>, modifiedOn: Option<string>)
    ensures var r := ToRecord(key, app, appliedDefault);
      var a := FromStored(Stored(id, r, createdOn, modifiedOn));
      && a.title == r.title && a.company == r.company && a.status == r.status
      && a.appliedDate == r.applied_date
      && a.salary == Salary(r.salary_min, r.salary_max, r.salary_currency)
      && a.location == r.location && a.notes == r.notes && a.jobUrl == r.job_url
  {
  }

  // ---------------------------------------------------------------------
  // Remote answers
  // ---------------------------------------------------------------------

  /** `getAll`: the mapped records, or `[]` when the fetch failed. */
  function GetAll(resp: FetchResponse<StoredApplication>): (apps: seq<Application>)
    ensures !resp.success ==> apps == []
    ensures resp.success ==> |apps| == |resp.data| && forall i :: 0 <= i < |apps| ==> apps[i] == FromStored(resp.data[i])
  {
    if !resp.success then [] else seq(|resp.data|, i requires 0 <= i < |resp.data| => FromStored(resp.data[i]))
  }

  /** `getById`: throws 'Application not found' when the call failed or found nothing. */
  function GetById(resp: GetResponse<StoredApplication>): (r: Result<Application>)
    ensures r.Ok? <==> resp.success && resp.data.Some?
    ensures r.Ok? ==> r.value == FromStored(resp.data.value)
    ensures r.Err? ==> r.message == "Application not found"
  {
    if !resp.success || resp.data.None? then Err("Application not found") else Ok(FromStored(resp.data.value))
  }

  /** The create and update outcome: the first successful result, mapped; otherwise `new Error(failure)`. */
  function FirstApplication(resp: MutationResponse<StoredApplication>, failure: string): (r: Result<Application>)
    ensures r.Ok? <==>
      resp.success && resp.results.Some? && exists i :: 0 <= i < |resp.results.value| && resp.results.value[i].Succeeded?
    ensures r.Ok? ==>
      exists i :: 0 <= i < |resp.results.value| && resp.results.value[i].Succeeded?
        && r.value == FromStored(resp.results.value[i].data)
        && forall k :: 0 <= k < i ==> resp.results.value[k].Failed?
    ensures r.Err? ==> r.message == failure
  {
    match FirstSuccess(resp, failure)
    case Ok(item) => Ok(FromStored(item))
    case Err(m) => Err(m)
  }

  function CreateOutcome(resp: MutationResponse<StoredApplication>): (r: Result<Application>)
    ensures r.Err? ==> r.message == "Failed to create application"
    ensures resp.results.None? ==> r.Err?
  {
    FirstApplication(resp, "Failed to create application")
  }

  function UpdateOutcome(resp: MutationResponse<StoredApplication>): (r: Result<Application>)
    ensures r.Err? ==> r.message == "Failed to update application"
    ensures resp.results.None? ==> r.Err?
  {
    FirstApplication(resp, "Failed to update application")
  }

  function DeleteOutcome(resp: MutationResponse<StoredApplication>): (r: Result<bool>)
    ensures r.Err? <==> !resp.success
    ensures r.Err? ==> r.message == "Failed to delete application"
    ensures r == Ok(true) <==>
      resp.success && resp.results.Some? && exists i :: 0 <= i < |resp.results.value| && resp.results.value[i].Succeeded?
    ensures resp.success && resp.results.None? ==> r == Ok(false)
  {
    AnySuccess(resp, "Failed to delete application")
  }

  // ---------------------------------------------------------------------
  // getByStatus and getStatusCounts
  // ---------------------------------------------------------------------

  /** `apps.filter(app => app.status === status)`. */
  function GetByStatus(apps: seq<Application>, status: string): (r: seq<Application>)
    ensures |r| <= |apps|
    ensures forall i :: 0 <= i < |r| ==> r[i].status == status
  {
    if |apps| == 0 then []
    else (if apps[0].status == status then [apps[0]] else []) + GetByStatus(apps[1..], status)
  }

  /** The filter distributes over concatenation, so it keeps the original order. */
  lemma {:induction false} GetByStatusAppend(a: seq<Application>, b: seq<Application>, status: string)
    ensures GetByStatus(a + b, status) == GetByStatus(a, status) + GetByStatus(b, status)
    decreases |a|
  {
    if |a| == 0 {
      assert a + b == b;
    } else {
      assert (a + b)[1..] == a[1..] + b;
      GetByStatusAppend(a[1..], b, status);
    }
  }

  /** Each application is kept as many times as it occurs, when its status matches, and not at all otherwise. */
  lemma {:induction false} GetByStatusSelects(apps: seq<Application>, status: string)
    ensures forall a :: multiset(GetByStatus(apps, status))[a] == if a.status == status then multiset(apps)[a] else 0
    decreases |apps|
  {
    if |apps| > 0 {
      GetByStatusSelects(apps[1..], status);
      assert apps == [apps[0]] + apps[1..];
    }
  }

  /** An application is in the result exactly when it is in the input with that status. */
  lemma GetByStatusMembers(apps: seq<Application>, status: string)
    ensures forall a :: a in GetByStatus(apps, status) <==> a in apps && a.status == status
  {
    GetByStatusSelects(apps, status);
    forall a ensures a in GetByStatus(apps, status) <==> a in apps && a.status == status {
      assert a in GetByStatus(apps, status) <==> a in multiset(GetByStatus(apps, status));
      assert a in apps <==> a in multiset(apps);
    }
  }

  /** The statuses that occur in `apps`. */
  function StatusSet(apps: seq<Application>): set<string>
  {
    set i | 0 <= i < |apps| :: apps[i].status
  }

  /** The reference for `getStatusCounts`: one key per status present, the size of its `getByStatus` list. */
  function StatusCounts(apps: seq<Application>): (counts: map<string, nat>)
    ensures forall s :: s in counts ==> counts[s] <= |apps|
  {
    map s | s in StatusSet(apps) :: |GetByStatus(apps, s)|
  }

  /** Statuses of the input and its filter lists agree: a status that is absent selects nothing. */
  lemma AbsentStatusSelectsNothing(apps: seq<Application>, status: string)
    ensures status !in StatusSet(apps) ==> GetByStatus(apps, status) == []
  {
    GetByStatusMembers(apps, status);
    if GetByStatus(apps, status) != [] {
      var x := GetByStatus(apps, status)[0];
      var k :| 0 <= k < |apps| && apps[k] == x;
    }
  }

  lemma StatusSetSnoc(apps: seq<Application>, app: Application)
    ensures StatusSet(apps + [app]) == StatusSet(apps) + {app.status}
  {
    var t := apps + [app];
    forall s | s in StatusSet(t) ensures s in StatusSet(apps) + {app.status} {
      var k :| 0 <= k < |t| && t[k].status == s;
      if k < |apps| {
        assert apps[k] == t[k];
      }
    }
    forall s | s in StatusSet(apps) ensures s in StatusSet(t) {
      var k :| 0 <= k < |apps| && apps[k].status == s;
      assert t[k] == apps[k];
    }
    assert t[|apps|] == app;
  }

  /** One more application bumps the count of its own status, starting from 0, and no other. */
  lemma StatusCountsSnoc(apps: seq<Application>, app: Application)
    ensures StatusCounts(apps + [app]) ==
      StatusCounts(apps)[app.status := (if app.status in StatusCounts(apps) then StatusCounts(apps)[app.status] else 0) + 1]
  {
    var before := StatusCounts(apps);
    var after := StatusCounts(apps + [app]);
    var bumped := before[app.status := (if app.status in before then before[app.status] else 0) + 1];
    StatusSetSnoc(apps, app);
    AbsentStatusSelectsNothing(apps, app.status);
    assert after.Keys == bumped.Keys;
    forall s | s in after ensures after[s] == bumped[s] {
      GetByStatusAppend(apps, [app], s);
    }
  }

  /** `getStatusCounts`: the `reduce` that bumps `acc[app.status]` for each application in turn. */
  method GetStatusCounts(apps: seq<Application>) returns (counts: map<string, nat>)
    ensures counts == StatusCounts(apps)
  {
    counts := map[];
    var i := 0;
    while i < |apps|
      invariant 0 <= i <= |apps|
      invariant counts == StatusCounts(apps[..i])
    {
      var app := apps[i];
      var prior := if app.status in counts then counts[app.status] else 0;
      counts := counts[app.status := prior + 1];
      assert apps[..i + 1] == apps[..i] + [app];
      StatusCountsSnoc(apps[..i], app);
      i := i + 1;
    }
    assert apps[..i] == apps;
  }

  /** Every status in the counts occurs, so its count is at least 1. */
  lemma StatusCountsPositive(apps: seq<Application>, status: string)
    ensures status in StatusCounts(apps) <==> exists i :: 0 <= i < |apps| && apps[i].status == status
    ensures status in StatusCounts(apps) ==> StatusCounts(apps)[status] >= 1
  {
    if status in StatusCounts(apps) {
      var k :| 0 <= k < |apps| && apps[k].status == status;
      GetByStatusMembers(apps, status);
      assert apps[k] in GetByStatus(apps, status);
    }
  }

  /** The status of every application, in order (`app.status` as the `reduce` visits it). */
  function Statuses(apps: seq<Application>): (r: seq<string>)
    ensures |r| == |apps| && forall i :: 0 <= i < |apps| ==> r[i] == apps[i].status
  {
    seq(|apps|, i requires 0 <= i < |apps| => apps[i].status)
  }

  /** The sum of the counts under `keys`, a missing key counting 0. */
  function SumOver(m: map<string, nat>, keys: seq<string>): nat
    decreases |keys|
  {
    if |keys| == 0 then 0
    else
      var k := keys[|keys| - 1];
      SumOver(m, keys[..|keys| - 1]) + (if k in m then m[k] else 0)
  }

  lemma {:induction false} SumOverUnaffected(m: map<string, nat>, keys: seq<string>, k: string, v: nat)
    requires k !in keys
    ensures SumOver(m[k := v], keys) == SumOver(m, keys)
    decreases |keys|
  {
    if |keys| > 0 {
      SumOverUnaffected(m, keys[..|keys| - 1], k, v);
    }
  }

  lemma {:induction false} SumOverBump(m: map<string, nat>, keys: seq<string>, k: string)
    requires k in m && k in keys
    requires forall i, j :: 0 <= i < j < |keys| ==> keys[i] != keys[j]
    ensures SumOver(m[k := m[k] + 1], keys) == SumOver(m, keys) + 1
    decreases |keys|
  {
    var front, last := keys[..|keys| - 1], keys[|keys| - 1];
    if last == k {
      assert k !in front by {
        forall i | 0 <= i < |front| ensures front[i] != k {
          assert front[i] == keys[i];
        }
      }
      SumOverUnaffected(m, front, k, m[k] + 1);
    } else {
      assert k in front by {
        var i :| 0 <= i < |keys| && keys[i] == k;
        assert front[i] == k;
      }
      SumOverBump(m, front, k);
    }
  }

  /** Counting one more `k` adds 1 to the sum, whether `k` is new or already listed. */
  lemma SumOverCountOneMore(m: map<string, nat>, keys: seq<string>, k: string)
    requires k in m <==> k in keys
    requires forall i, j :: 0 <= i < j < |keys| ==> keys[i] != keys[j]
    ensures SumOver(m[k := (if k in m then m[k] else 0) + 1], if k in keys then keys else keys + [k]) == SumOver(m, keys) + 1
  {
    if k in keys {
      SumOverBump(m, keys, k);
    } else {
      assert (keys + [k])[..|keys|] == keys;
      SumOverUnaffected(m, keys, k, 1);
    }
  }

  lemma StatusesSnoc(apps: seq<Application>, app: Application)
    ensures Distinct(Statuses(apps + [app])) ==
      if app.status in Distinct(Statuses(apps)) then Distinct(Statuses(apps)) else Distinct(Statuses(apps)) + [app.status]
    ensures app.status in Distinct(Statuses(apps)) <==> app.status in StatusCounts(apps)
  {
    var t := Statuses(apps + [app]);
    assert t[..|apps|] == Statuses(apps);
    assert t[|apps|] == app.status;
    if app.status in StatusCounts(apps) {
      var k :| 0 <= k < |apps| && apps[k].status == app.status;
      assert Statuses(apps)[k] == app.status;
    }
    if app.status in Distinct(Statuses(apps)) {
      var k :| 0 <= k < |apps| && Statuses(apps)[k] == app.status;
      assert apps[k].status == app.status;
    }
  }

  /**
   * The counts add up to the number of applications: summed once per status,
   * in the order the statuses first appear, they give `|apps|`.
   */
  lemma {:induction false} StatusCountsAddUp(apps: seq<Application>)
    ensures SumOver(StatusCounts(apps), Distinct(Statuses(apps))) == |apps|
    decreases |apps|
  {
    if |apps| > 0 {
      var n := |apps|;
      var p, x := apps[..n - 1], apps[n - 1];
      assert apps == p + [x];
      StatusCountsAddUp(p);
      StatusCountsSnoc(p, x);
      StatusesSnoc(p, x);
      SumOverCountOneMore(StatusCounts(p), Distinct(Statuses(p)), x.status);
    }
  }
}
