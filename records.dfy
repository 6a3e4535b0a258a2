/** The deployment record shared by the dashboard components, the status
    counts they compute with `filter(d => d.status === s).length`, and the
    three-way status label that the list and the details panel both show. */
module Deployments {

  /** One deployment as the dashboard receives it. Timestamps are kept as the
      ISO text the components are given. */
  datatype Deployment = Deployment(
    id: int,
    username: string,
    projectName: string,
    deployedAt: string,
    status: string,
    avatar: string,
    environment: string,
    duration: string)

  /** The statuses the components single out. Any other string is possible in
      a record and falls into the last branch of their conditionals. */
  predicate IsKnownStatus(status: string)
  {
    status == "success" || status == "in_progress" || status == "failed"
  }

  /** The number of records whose status is exactly `status`. */
  function Count(ds: seq<Deployment>, status: string): (n: nat)
    ensures n <= |ds|
  {
    if ds == [] then 0
    else (if ds[0].status == status then 1 else 0) + Count(ds[1..], status)
  }

  /** A status count is 0 exactly when no record has the status, and the
      number of records exactly when every record has it. */
  lemma {:induction false} CountExtremes(ds: seq<Deployment>, status: string)
    ensures Count(ds, status) == 0 <==> forall i :: 0 <= i < |ds| ==> ds[i].status != status
    ensures Count(ds, status) == |ds| <==> forall i :: 0 <= i < |ds| ==> ds[i].status == status
  {
    if ds != [] {
      CountExtremes(ds[1..], status);
      assert forall i :: 1 <= i < |ds| ==> ds[i] == ds[1..][i - 1];
    }
  }

  /** The three status counts together never exceed the number of records,
      and reach it exactly when every record has a known status. */
  lemma {:induction false} CountsCoverKnownStatuses(ds: seq<Deployment>)
    ensures Count(ds, "success") + Count(ds, "in_progress") + Count(ds, "failed") <= |ds|
    ensures Count(ds, "success") + Count(ds, "in_progress") + Count(ds, "failed") == |ds|
            <==> forall i :: 0 <= i < |ds| ==> IsKnownStatus(ds[i].status)
  {
    if ds != [] {
      CountsCoverKnownStatuses(ds[1..]);
      KnownStatusesCons(ds);
    }
  }

  /** A list has only known statuses exactly when its head and its tail do. */
  lemma KnownStatusesCons(ds: seq<Deployment>)
    requires ds != []
    ensures (forall i :: 0 <= i < |ds| ==> IsKnownStatus(ds[i].status))
            <==> IsKnownStatus(ds[0].status) && forall i :: 0 <= i < |ds[1..]| ==> IsKnownStatus(ds[1..][i].status)
  {
    if IsKnownStatus(ds[0].status) && forall i :: 0 <= i < |ds[1..]| ==> IsKnownStatus(ds[1..][i].status) {
      forall i | 0 <= i < |ds| ensures IsKnownStatus(ds[i].status) {
        if i > 0 {
          assert ds[i] == ds[1..][i - 1];
        }
      }
    }
  }

  /** The label of a status: `success` is "Successful", `in_progress` is
      "In Progress", and every other status is "Failed". */
  function StatusLabel(status: string): (shown: string)
    ensures shown == "Successful" <==> status == "success"
    ensures shown == "In Progress" <==> status == "in_progress"
    ensures shown == "Failed" <==> status != "success" && status != "in_progress"
  {
    if status == "success" then "Successful"
    else if status == "in_progress" then "In Progress"
    else "Failed"
  }
}
