/**
 * The command line of vcworkspace.py (main): which of the three paths a run
 * takes, and the credentials-expiry warning printed before it.
 *
 * The arguments are what argparse hands over: each option is absent (None)
 * or the string given on the command line.
 */
module Cli {
  import opened Optional
  import opened Remote
  import opened WorkspaceName
  import Reconcile

  /** The path a run takes. */
  datatype Mode =
    | AllApps                   // --all TRUE: the create path for every application
    | Cleanup                   // --cleanup TRUE: delete the workspaces without projects
    | SingleApp(appId: string)  // --app_id: the create path for one application
    | Usage                     // nothing to do: print the usage line, return 0

  /** A flag is on only when its value is exactly "TRUE". */
  predicate FlagOn(flag: Option<string>) {
    flag == Some("TRUE")
  }

  /** The mode-selection branch of main: --all wins over --cleanup, which wins over --app_id. */
  function SelectMode(appId: Option<string>, all: Option<string>, cleanup: Option<string>): (m: Mode)
    ensures m == AllApps <==> FlagOn(all)
    ensures m == Cleanup <==> !FlagOn(all) && FlagOn(cleanup)
    ensures m.SingleApp? <==> !FlagOn(all) && !FlagOn(cleanup) && appId.Some?
    ensures m.SingleApp? ==> m.appId == appId.value
    ensures m == Usage <==> !FlagOn(all) && !FlagOn(cleanup) && appId == None
  {
    if all == Some("TRUE") then AllApps
    else if cleanup == Some("TRUE") then Cleanup
    else if appId == None then Usage
    else SingleApp(appId.value)
  }

  /**
   * The flags compare case-sensitively: "true" or "True" turns nothing on, so
   * such a run falls through to the next rule.
   */
  lemma FlagsAreExact(id: string)
    ensures SelectMode(None, Some("true"), None) == Usage
    ensures SelectMode(None, Some("True"), Some("TRUE")) == Cleanup
    ensures SelectMode(Some(id), Some("yes"), Some("true")) == SingleApp(id)
    ensures SelectMode(Some(id), Some("TRUE"), Some("TRUE")) == AllApps
  {
    assert "true" != "TRUE" by { assert "true"[0] != "TRUE"[0]; }
    assert "True" != "TRUE" by { assert "True"[1] != "TRUE"[1]; }
    assert "yes" != "TRUE" by { assert |"yes"| != |"TRUE"|; }
  }

  /**
   * One run of main after the credentials check. `apps` is the service's
   * list of applications (with `locations[i]` answering the create for the
   * i-th), `appOf` the profile the service returns for an id, and
   * `location` the answer to the create of the single-app path. The result
   * is main's return value: 0 on the usage path, None otherwise.
   */
  method Run(svc: Service, isAlpha: char -> bool,
             appId: Option<string>, all: Option<string>, cleanup: Option<string>,
             apps: seq<AppInfo>, locations: seq<string>,
             appOf: string -> AppInfo, location: string)
    returns (exit: Option<int>)
    requires |locations| == |apps|
    modifies svc
    ensures var m := SelectMode(appId, all, cleanup);
            match m
            case Usage =>
              exit == Some(0) && svc.workspaces == old(svc.workspaces) && svc.calls == old(svc.calls)
            case AllApps =>
              var e := Reconcile.BulkEffect(old(svc.workspaces), Reconcile.DerivedNames(isAlpha, apps), apps, locations);
              exit == None && svc.workspaces == e.workspaces && svc.calls == old(svc.calls) + e.issued
            case Cleanup =>
              var e := Reconcile.CleanupEffect(old(svc.workspaces));
              exit == None && svc.workspaces == e.workspaces && svc.calls == old(svc.calls) + e.issued
            case SingleApp(id) =>
              var app := appOf(id);
              var e := Reconcile.CreateEffect(old(svc.workspaces), DeriveName(isAlpha, app.name), app.teams, location);
              exit == None && svc.workspaces == e.workspaces && svc.calls == old(svc.calls) + e.issued
  {
    var appAll := all == Some("TRUE");
    var doCleanup := cleanup == Some("TRUE");
    if appAll {
      Reconcile.CreateAll(svc, isAlpha, apps, locations);
    } else if doCleanup {
      var _ := Reconcile.DeleteWorkspaces(svc);
    } else {
      if appId == None {
        return Some(0);
      }
      var app := appOf(appId.value);
      var _ := Reconcile.CreateWorkspace(svc, isAlpha, app, location);
    }
    exit := None;
  }

  /** Seconds in a day. */
  const SecondsPerDay: int := 86400

  /** The warning threshold, in whole days. */
  const WarningDays: int := 7

  /**
   * creds_expire_days_warning: warn when the whole days left before the
   * credentials expire (`delta.days`, the floor of the time left divided by
   * a day, negative once expired) are fewer than 7. `secondsLeft` is the
   * time left, rounded down to a whole second.
   */
  function ExpiryWarning(secondsLeft: int): (warn: bool)
    ensures warn <==> secondsLeft < WarningDays * SecondsPerDay
  {
    secondsLeft / SecondsPerDay < WarningDays
  }
}
