/** The details panel of `DeploymentDetails.js`: a header with the status
    label in its colour, a chevron that turns when the panel is expanded, and,
    only when expanded, the record's fields, a log chosen by the status and a
    row of action buttons. The date formatting (`toLocaleString`) is passed in
    as text. */
module Details {
  import opened Wrappers
  import opened Deployments

  /** The expanded flag held by the panel. */
  class DeploymentDetails {
    var isExpanded: bool

    /** The panel starts collapsed. */
    constructor()
      ensures !isExpanded
    {
      isExpanded := false;
    }

    /** `toggleExpand`, on clicking the header. */
    method ToggleExpand()
      modifies this
      ensures isExpanded == !old(isExpanded)
    {
      isExpanded := !isExpanded;
    }
  }

  /** Toggling twice leaves the panel as it was. */
  method ToggleTwice(p: DeploymentDetails)
    modifies p
    ensures p.isExpanded == old(p.isExpanded)
  {
    p.ToggleExpand();
    p.ToggleExpand();
  }

  /** The text colours used by the panel. */
  datatype Tone = Green | Gray | Blue | Yellow | Red {
    /** The Tailwind class that paints text in this colour. */
    function ClassName(): string
    {
      match this
      case Green => "text-green-400"
      case Gray => "text-gray-400"
      case Blue => "text-blue-400"
      case Yellow => "text-yellow-400"
      case Red => "text-red-400"
    }
  }

  /** The colour of the status label in the header. */
  function HeaderColor(status: string): (r: Tone)
    ensures r == Green <==> StatusLabel(status) == "Successful"
    ensures r == Yellow <==> StatusLabel(status) == "In Progress"
    ensures r == Red <==> StatusLabel(status) == "Failed"
  {
    if status == "success" then Green
    else if status == "in_progress" then Yellow
    else Red
  }

  /** What a log line says; `Text` gives the words shown. */
  datatype Message =
    | Starting | Pulling | Installing | Building | Optimizing | Testing | TestsPassed
    | DeployingTo(environment: string) | Completed | CleaningUp | FinishedIn(duration: string)
    | BuildRunning | SyntaxError | UnresolvedDependency | FailedAfter(duration: string)
  {
    function Text(): string
    {
      match this
      case Starting => "[INFO] Starting deployment process..."
      case Pulling => "[INFO] Pulling latest changes from repository"
      case Installing => "[INFO] Installing dependencies..."
      case Building => "[INFO] Running build process..."
      case Optimizing => "[INFO] Optimizing assets..."
      case Testing => "[INFO] Running tests..."
      case TestsPassed => "[INFO] Tests completed successfully"
      case DeployingTo(env) => "[INFO] Deploying to " + env + "..."
      case Completed => "[SUCCESS] Deployment completed successfully!"
      case CleaningUp => "[INFO] Cleaning up temporary files..."
      case FinishedIn(dur) => "[INFO] Deployment process finished in " + dur
      case BuildRunning => "[INFO] Build in progress..."
      case SyntaxError => "[ERROR] Build failed: Syntax error in module"
      case UnresolvedDependency => "[ERROR] Cannot resolve dependency 'react-chartjs'"
      case FailedAfter(dur) => "[FAILED] Deployment failed after " + dur
    }
  }

  /** One line of the log panel, with its colour. */
  datatype LogLine = LogLine(color: Tone, message: Message)

  /** The log shown for a record: a full successful run, a build still going,
      or a failed build, chosen by the status; the environment and duration
      are filled in. */
  function Logs(d: Deployment): (log: seq<LogLine>)
    ensures |log| >= 5 && log[0].message == Starting
    ensures log[0].color == Green <==> d.status == "success"
    ensures log[|log| - 1].color == Yellow <==> d.status == "in_progress"
    ensures log[|log| - 1].color == Red <==> StatusLabel(d.status) == "Failed"
  {
    if d.status == "success" then SuccessLog(d)
    else if d.status == "in_progress" then RunningLog()
    else FailedLog(d)
  }

  /** The log of a completed deployment. */
  function SuccessLog(d: Deployment): (log: seq<LogLine>)
    ensures |log| == 11
    ensures log[0] == LogLine(Green, Starting) && log[10].color == Gray
  {
    [ LogLine(Green, Starting), LogLine(Gray, Pulling), LogLine(Gray, Installing),
      LogLine(Gray, Building), LogLine(Gray, Optimizing), LogLine(Gray, Testing),
      LogLine(Gray, TestsPassed), LogLine(Gray, DeployingTo(d.environment)),
      LogLine(Green, Completed), LogLine(Gray, CleaningUp), LogLine(Gray, FinishedIn(d.duration)) ]
  }

  /** The log of a build still in progress. */
  function RunningLog(): (log: seq<LogLine>)
    ensures |log| == 5
    ensures log[0] == LogLine(Blue, Starting) && log[4].color == Yellow
  {
    [ LogLine(Blue, Starting), LogLine(Gray, Pulling), LogLine(Gray, Installing),
      LogLine(Yellow, Building), LogLine(Yellow, BuildRunning) ]
  }

  /** The log of a failed build. */
  function FailedLog(d: Deployment): (log: seq<LogLine>)
    ensures |log| == 7
    ensures log[0] == LogLine(Blue, Starting) && log[6].color == Red
  {
    [ LogLine(Blue, Starting), LogLine(Gray, Pulling), LogLine(Gray, Installing),
      LogLine(Gray, Building), LogLine(Red, SyntaxError), LogLine(Red, UnresolvedDependency),
      LogLine(Red, FailedAfter(d.duration)) ]
  }

  /** The Retry button is offered for a status of exactly "failed". */
  predicate RetryShown(status: string)
  {
    status == "failed"
  }

  /** The action buttons, left to right. */
  function Actions(status: string): (bs: seq<string>)
    ensures "Retry Deployment" in bs <==> RetryShown(status)
    ensures |bs| >= 2 && bs[0] == "View Full Logs" && bs[|bs| - 1] == "Compare with Previous"
  {
    ["View Full Logs"] + (if RetryShown(status) then ["Retry Deployment"] else []) + ["Compare with Previous"]
  }

  /** The body shown when expanded: the basic information, the log, the actions. */
  datatype Body = Body(
    projectName: string,
    deployedBy: string,
    environment: string,
    duration: string,
    deployedAt: string,
    logs: seq<LogLine>,
    actions: seq<string>)

  /** The panel as rendered: the header label and its colour, whether the
      chevron is turned, and the body when expanded. */
  datatype Panel = Panel(heading: string, headingColor: Tone, chevronTurned: bool, body: Option<Body>)

  /** The component's output for a possibly absent record, the expanded flag
      and the record's date as `toLocaleString` renders it. */
  function Render(deployment: Option<Deployment>, isExpanded: bool, formattedDate: string): (p: Option<Panel>)
    ensures p.None? <==> deployment.None?
    ensures p.Some? ==> (p.value.body.Some? <==> isExpanded) && p.value.chevronTurned == isExpanded
  {
    match deployment
    case None => None
    case Some(d) =>
      var body :=
        if isExpanded then
          Some(Body(d.projectName, "@" + d.username, d.environment, d.duration, formattedDate,
                    Logs(d), Actions(d.status)))
        else None;
      Some(Panel(StatusLabel(d.status), HeaderColor(d.status), isExpanded, body))
  }

  /** The header splits the statuses three ways: "Successful" in green,
      "In Progress" in yellow and "Failed" in red for everything else. */
  lemma HeaderAgrees(d: Deployment, isExpanded: bool, formattedDate: string)
    ensures var p := Render(Some(d), isExpanded, formattedDate).value;
            && (p.heading == "Successful" <==> p.headingColor == Green)
            && (p.heading == "In Progress" <==> p.headingColor == Yellow)
            && (p.heading == "Failed" <==> p.headingColor == Red)
  {
  }

  /** The log has 11, 5 or 7 lines, split the same way as the header label. */
  lemma LogAgrees(d: Deployment)
    ensures |Logs(d)| == (if d.status == "success" then 11 else if d.status == "in_progress" then 5 else 7)
    ensures |Logs(d)| == 11 <==> StatusLabel(d.status) == "Successful"
    ensures |Logs(d)| == 7 <==> StatusLabel(d.status) == "Failed"
  {
  }

  /** A status other than the three is labelled "Failed" in red and shows the
      failure log, yet gets no Retry button: the label and the button test the
      status differently. */
  lemma UnknownStatusFailedWithoutRetry(d: Deployment, formattedDate: string)
    requires !IsKnownStatus(d.status)
    ensures var p := Render(Some(d), true, formattedDate).value;
            && p.heading == "Failed" && p.headingColor == Red
            && p.body.value.logs == Logs(d.(status := "failed"))
            && "Retry Deployment" !in p.body.value.actions
  {
  }
}
