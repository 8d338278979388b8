/** The OD request as the two portal pages see it: a JSON object decoded from a
    backend response, whose properties other than `_id` and `status` may be
    missing. Shared by the student and the faculty page. */
module RequestView {
  import opened Wrappers
  import opened Sequences

  const Pending := "pending"
  const Approved := "approved"
  const Rejected := "rejected"
  /** The status-filter value that disables the status filter. */
  const AnyStatus := "all"

  /** One OD request record. Timestamps are integer seconds; `date` is the
      day-only timestamp the per-student query adds. `status` is free text:
      the backend stores whatever string a status update carries. */
  datatype OdRequest = OdRequest(
    id: string,
    studentEmail: Option<string>,
    name: Option<string>,
    deptName: Option<string>,
    rollNo: Option<string>,
    section: Option<string>,
    reason: Option<string>,
    venue: Option<string>,
    description: Option<string>,
    status: string,
    appliedAt: Option<int>,
    date: Option<int>)

  /** `statusFilter === "all" || request.status === statusFilter`. */
  predicate StatusMatches(r: OdRequest, statusFilter: string)
  {
    statusFilter == AnyStatus || r.status == statusFilter
  }

  /** `req => req.status === status`. */
  function HasStatus(status: string): OdRequest -> bool
  {
    (r: OdRequest) => r.status == status
  }

  /** `odRequests.filter(req => req.status === status).length`. */
  function StatusCount(odRequests: seq<OdRequest>, status: string): nat
  {
    Count(odRequests, HasStatus(status))
  }

  function StatusOf(r: OdRequest): string
  {
    r.status
  }

  /** A counter is the number of times its status occurs among the records'
      statuses. */
  lemma {:induction false} StatusCountIsMultiplicity(odRequests: seq<OdRequest>, status: string)
    ensures StatusCount(odRequests, status) == multiset(Map(odRequests, StatusOf))[status]
    decreases |odRequests|
  {
    if odRequests != [] {
      StatusCountFirst(odRequests, status);
      StatusCountIsMultiplicity(odRequests[1..], status);
      assert Map(odRequests, StatusOf) == [odRequests[0].status] + Map(odRequests[1..], StatusOf);
    }
  }

  /** The three status counters never exceed the total, and add up to it when
      every record carries one of the three known statuses. */
  lemma {:induction false} StatusCountsBounded(odRequests: seq<OdRequest>)
    ensures StatusCount(odRequests, Approved) + StatusCount(odRequests, Pending)
              + StatusCount(odRequests, Rejected) <= |odRequests|
    ensures (forall i :: 0 <= i < |odRequests| ==> odRequests[i].status in {Approved, Pending, Rejected})
              ==> StatusCount(odRequests, Approved) + StatusCount(odRequests, Pending)
                    + StatusCount(odRequests, Rejected) == |odRequests|
    decreases |odRequests|
  {
    if odRequests != [] {
      var rest := odRequests[1..];
      StatusCountsBounded(rest);
      StatusCountFirst(odRequests, Approved);
      StatusCountFirst(odRequests, Pending);
      StatusCountFirst(odRequests, Rejected);
    }
  }

  lemma StatusCountFirst(odRequests: seq<OdRequest>, status: string)
    requires odRequests != []
    ensures StatusCount(odRequests, status)
              == (if odRequests[0].status == status then 1 else 0) + StatusCount(odRequests[1..], status)
  {
    CountFirst(odRequests, HasStatus(status));
  }

  /** A record counted under one status is never counted under another. */
  lemma StatusFiltersDisjoint(odRequests: seq<OdRequest>, s1: string, s2: string)
    requires s1 != s2
    ensures Filter(Filter(odRequests, HasStatus(s1)), HasStatus(s2)) == []
  {
    var inner := Filter(odRequests, HasStatus(s1));
    forall i | 0 <= i < |inner| ensures !HasStatus(s2)(inner[i]) {
      assert inner[i] in inner;
    }
    FilterNone(inner, HasStatus(s2));
  }
}
