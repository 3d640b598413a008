/**
 * The reconciliation paths of vcworkspace.py: creating the workspace of an
 * application (create_workspace), creating it for every application (the
 * `--all` loop of main) and deleting the workspaces without projects
 * (delete_workspaces, delete_workspace).
 *
 * Each path is a method on a Service, proved against a function that gives
 * the new workspace table and the calls issued from the old table. The
 * lemmas below state the properties of those functions.
 */
module Reconcile {
  import opened Optional
  import opened Remote
  import opened WorkspaceName
  import opened Location

  // ---------------------------------------------------------------------------
  // Create path

  /**
   * What create_workspace reports: the skip (it returns 0) or the workspace
   * it created, which the source only logs ("Created workspace named … with
   * … teams").
   */
  datatype CreateOutcome = AlreadyExists | Created(name: string, guid: string, teamCount: nat)

  /** A new table and the calls issued to reach it. */
  datatype Effect = Effect(workspaces: seq<Workspace>, issued: seq<Call>)

  /** The lookup by name finds a workspace and the first one found has a non-empty id. */
  predicate HasExisting(ws: seq<Workspace>, name: string) {
    var found := Named(ws, name);
    found != [] && found[0].id != ""
  }

  /** One team-assignment call per team entry, in list order. */
  function TeamCalls(guid: string, teams: seq<Team>): seq<Call> {
    if teams == [] then []
    else TeamCalls(guid, teams[..|teams| - 1]) + [AddTeamCall(guid, teams[|teams| - 1].teamId)]
  }

  /**
   * The effect of create_workspace on the table `ws`, for an application
   * whose derived workspace name is `name`, when the service answers the
   * create with `location`.
   */
  function CreateEffect(ws: seq<Workspace>, name: string, teams: seq<Team>, location: string): Effect {
    if HasExisting(ws, name) then Effect(ws, [])
    else
      var guid := GuidFromLocation(location);
      Effect(ws + [Workspace(guid, name, Some(0))], [CreateCall(name)] + TeamCalls(guid, teams))
  }

  /** The outcome create_workspace reports on the table `ws`. */
  function CreateOutcomeOf(ws: seq<Workspace>, name: string, teams: seq<Team>, location: string): CreateOutcome {
    if HasExisting(ws, name) then AlreadyExists
    else Created(name, GuidFromLocation(location), |teams|)
  }

  /** Creates the workspace of `app` unless one with its derived name exists, then assigns the app's teams to it. */
  method CreateWorkspace(svc: Service, isAlpha: char -> bool, app: AppInfo, location: string)
    returns (outcome: CreateOutcome)
    modifies svc
    ensures var e := CreateEffect(old(svc.workspaces), DeriveName(isAlpha, app.name), app.teams, location);
            svc.workspaces == e.workspaces && svc.calls == old(svc.calls) + e.issued
    ensures outcome == CreateOutcomeOf(old(svc.workspaces), DeriveName(isAlpha, app.name), app.teams, location)
  {
    var name := DeriveName(isAlpha, app.name);
    var existing := svc.GetWorkspaceByName(name);
    if existing != [] && existing[0].id != "" {
      return AlreadyExists;
    }
    ghost var before := svc.calls;
    svc.CreateWorkspace(name, location);
    var guid := GuidFromLocation(location);
    AssignTeams(svc, guid, app.teams);
    ConcatAssoc(before, [CreateCall(name)], TeamCalls(guid, app.teams));
    outcome := Created(name, guid, |app.teams|);
  }

  /** Sequence concatenation is associative. */
  lemma ConcatAssoc<T>(a: seq<T>, b: seq<T>, c: seq<T>)
    ensures a + b + c == a + (b + c)
  {
  }

  /** The team-assignment loop of the create path: one call per team entry, in list order. */
  method AssignTeams(svc: Service, guid: string, teams: seq<Team>)
    modifies svc
    ensures svc.workspaces == old(svc.workspaces)
    ensures svc.calls == old(svc.calls) + TeamCalls(guid, teams)
  {
    for i := 0 to |teams|
      invariant svc.workspaces == old(svc.workspaces)
      invariant svc.calls == old(svc.calls) + TeamCalls(guid, teams[..i])
    {
      svc.AddWorkspaceTeam(guid, teams[i].teamId);
      assert teams[..i + 1][..i] == teams[..i];
    }
    assert teams[..|teams|] == teams;
  }

  /** Exactly one call per team entry, in list order, duplicates included, all for the same workspace. */
  lemma {:induction false} TeamCallsInOrder(guid: string, teams: seq<Team>)
    ensures |TeamCalls(guid, teams)| == |teams|
    ensures forall k :: 0 <= k < |teams| ==> TeamCalls(guid, teams)[k] == AddTeamCall(guid, teams[k].teamId)
  {
    if teams != [] {
      TeamCallsInOrder(guid, teams[..|teams| - 1]);
    }
  }

  /**
   * The create path skips, issuing nothing, exactly when the first workspace
   * found under the name has an id; otherwise it issues one create with the
   * name followed by one assignment per team entry, in order, all for the id
   * taken from the create response.
   */
  lemma CreateCallSequence(ws: seq<Workspace>, name: string, teams: seq<Team>, location: string)
    ensures var e := CreateEffect(ws, name, teams, location);
            var guid := GuidFromLocation(location);
            (HasExisting(ws, name) ==> e == Effect(ws, [])) &&
            (!HasExisting(ws, name) ==>
               |e.issued| == 1 + |teams| &&
               e.issued[0] == CreateCall(name) &&
               (forall k :: 0 <= k < |teams| ==> e.issued[k + 1] == AddTeamCall(guid, teams[k].teamId)) &&
               e.workspaces == ws + [Workspace(guid, name, Some(0))])
  {
    if !HasExisting(ws, name) {
      var guid := GuidFromLocation(location);
      assert CreateEffect(ws, name, teams, location).issued == [CreateCall(name)] + TeamCalls(guid, teams);
      CreateThenTeams(name, guid, teams);
    }
  }

  /** The calls of a create: the create call, then the team calls in order. */
  lemma CreateThenTeams(name: string, guid: string, teams: seq<Team>)
    ensures var issued := [CreateCall(name)] + TeamCalls(guid, teams);
            |issued| == 1 + |teams| &&
            issued[0] == CreateCall(name) &&
            forall k :: 0 <= k < |teams| ==> issued[k + 1] == AddTeamCall(guid, teams[k].teamId)
  {
    TeamCallsInOrder(guid, teams);
    var issued := [CreateCall(name)] + TeamCalls(guid, teams);
    forall k | 0 <= k < |teams| ensures issued[k + 1] == AddTeamCall(guid, teams[k].teamId) {
      assert issued[k + 1] == TeamCalls(guid, teams)[k];
    }
  }

  /** A lookup on a table with one more workspace at the end finds what it found before, then maybe that one. */
  lemma NamedSnoc(ws: seq<Workspace>, w: Workspace, name: string)
    ensures Named(ws + [w], name) == Named(ws, name) + (if w.name == name then [w] else [])
  {
    assert (ws + [w])[..|ws|] == ws;
  }

  /** Every workspace in the table has an id. */
  predicate AllIdsPresent(ws: seq<Workspace>) {
    forall w :: w in ws ==> w.id != ""
  }

  /** At most one workspace per name. */
  predicate UniqueNames(ws: seq<Workspace>) {
    forall i, j :: 0 <= i < j < |ws| ==> ws[i].name != ws[j].name
  }

  /**
   * One create step on a table whose workspaces all have ids, with a create
   * response that names an id: ids stay present, names stay unique, what
   * existed still exists, and a workspace of the requested name exists
   * afterwards.
   */
  lemma CreateStepPreserves(ws: seq<Workspace>, name: string, teams: seq<Team>, location: string)
    requires AllIdsPresent(ws)
    requires GuidFromLocation(location) != ""
    ensures var after := CreateEffect(ws, name, teams, location).workspaces;
            AllIdsPresent(after) &&
            (UniqueNames(ws) ==> UniqueNames(after)) &&
            (forall other :: HasExisting(ws, other) ==> HasExisting(after, other)) &&
            HasExisting(after, name)
  {
    if !HasExisting(ws, name) {
      var w := Workspace(GuidFromLocation(location), name, Some(0));
      var after := ws + [w];
      // the lookup found nothing: a first match would have an id
      assert Named(ws, name) == [] by {
        NamedMembers(ws, name);
      }
      NamedSnoc(ws, w, name);
      forall other | HasExisting(ws, other) ensures HasExisting(after, other) {
        NamedSnoc(ws, w, other);
      }
      if UniqueNames(ws) {
        forall i, j | 0 <= i < j < |after| ensures after[i].name != after[j].name {
          if j == |ws| {
            NamedMembers(ws, name);
            assert after[i] in ws;
          }
        }
      }
    }
  }

  /** Creating twice under the same name creates once: the second call finds the first one's workspace. */
  lemma CreateIsIdempotent(ws: seq<Workspace>, name: string, teams: seq<Team>, first: string, second: string)
    requires AllIdsPresent(ws)
    requires GuidFromLocation(first) != ""
    ensures var after := CreateEffect(ws, name, teams, first).workspaces;
            CreateEffect(after, name, teams, second) == Effect(after, []) &&
            CreateOutcomeOf(after, name, teams, second) == AlreadyExists
  {
    CreateStepPreserves(ws, name, teams, first);
  }

  /**
   * The id condition of CreateIsIdempotent is needed: when the first
   * workspace the lookup finds has no id, every run creates the workspace
   * again, because that first match stays first.
   */
  lemma EmptyIdFirstMatchRecreates(name: string, teams: seq<Team>, first: string, second: string)
    ensures var ws := [Workspace("", name, None)];
            var after := CreateEffect(ws, name, teams, first).workspaces;
            var again := CreateEffect(after, name, teams, second).issued;
            |again| > 0 && again[0] == CreateCall(name)
  {
    var ws := [Workspace("", name, None)];
    assert Named(ws, name) == [ws[0]] by {
      NamedSnoc([], ws[0], name);
      assert [] + ws == ws;
    }
    var after := ws + [Workspace(GuidFromLocation(first), name, Some(0))];
    NamedSnoc(ws, Workspace(GuidFromLocation(first), name, Some(0)), name);
    assert Named(after, name)[0] == ws[0];
  }

  // ---------------------------------------------------------------------------
  // Bulk creation (main with --all TRUE)

  /**
   * The effect of running the create path for each application in turn, the
   * application names already derived; `locations[i]` answers the create
   * for the i-th application.
   */
  function BulkEffect(ws: seq<Workspace>, names: seq<string>, apps: seq<AppInfo>, locations: seq<string>): Effect
    requires |names| == |apps| == |locations|
  {
    if apps == [] then Effect(ws, [])
    else
      var n := |apps| - 1;
      var before := BulkEffect(ws, names[..n], apps[..n], locations[..n]);
      var step := CreateEffect(before.workspaces, names[n], apps[n].teams, locations[n]);
      Effect(step.workspaces, before.issued + step.issued)
  }

  /** The derived workspace names of the applications, in order. */
  function DerivedNames(isAlpha: char -> bool, apps: seq<AppInfo>): (names: seq<string>)
    ensures |names| == |apps|
    ensures forall i :: 0 <= i < |apps| ==> names[i] == DeriveName(isAlpha, apps[i].name)
  {
    seq(|apps|, i requires 0 <= i < |apps| => DeriveName(isAlpha, apps[i].name))
  }

  /** Running the create path for one more application extends the bulk effect by that step. */
  lemma BulkStep(ws: seq<Workspace>, names: seq<string>, apps: seq<AppInfo>, locations: seq<string>, i: nat)
    requires |names| == |apps| == |locations| && i < |apps|
    ensures var before := BulkEffect(ws, names[..i], apps[..i], locations[..i]);
            var step := CreateEffect(before.workspaces, names[i], apps[i].teams, locations[i]);
            BulkEffect(ws, names[..i + 1], apps[..i + 1], locations[..i + 1]) == Effect(step.workspaces, before.issued + step.issued)
  {
    assert names[..i + 1][..i] == names[..i];
    assert apps[..i + 1][..i] == apps[..i];
    assert locations[..i + 1][..i] == locations[..i];
  }

  /** Runs the create path for every application, in list order. */
  method CreateAll(svc: Service, isAlpha: char -> bool, apps: seq<AppInfo>, locations: seq<string>)
    requires |locations| == |apps|
    modifies svc
    ensures var e := BulkEffect(old(svc.workspaces), DerivedNames(isAlpha, apps), apps, locations);
            svc.workspaces == e.workspaces && svc.calls == old(svc.calls) + e.issued
  {
    ghost var names := DerivedNames(isAlpha, apps);
    for i := 0 to |apps|
      invariant var e := BulkEffect(old(svc.workspaces), names[..i], apps[..i], locations[..i]);
                svc.workspaces == e.workspaces && svc.calls == old(svc.calls) + e.issued
    {
      BulkStep(old(svc.workspaces), names, apps, locations, i);
      ghost var before := svc.calls;
      var _ := CreateWorkspace(svc, isAlpha, apps[i], locations[i]);
      ghost var e := BulkEffect(old(svc.workspaces), names[..i], apps[..i], locations[..i]);
      ghost var step := CreateEffect(e.workspaces, names[i], apps[i].teams, locations[i]);
      ConcatAssoc(old(svc.calls), e.issued, step.issued);
    }
    assert names[..|apps|] == names;
    assert apps[..|apps|] == apps;
    assert locations[..|locations|] == locations;
  }

  /**
   * Starting from a table whose workspaces all have ids, and with create
   * responses that name ids, a bulk run keeps every id present, keeps names
   * unique and loses no workspace that a lookup finds.
   */
  lemma {:induction false} BulkPreserves(ws: seq<Workspace>, names: seq<string>, apps: seq<AppInfo>, locations: seq<string>)
    requires |names| == |apps| == |locations|
    requires AllIdsPresent(ws)
    requires forall i :: 0 <= i < |locations| ==> GuidFromLocation(locations[i]) != ""
    ensures var after := BulkEffect(ws, names, apps, locations).workspaces;
            AllIdsPresent(after) &&
            (UniqueNames(ws) ==> UniqueNames(after)) &&
            (forall other :: HasExisting(ws, other) ==> HasExisting(after, other))
  {
    if apps != [] {
      var n := |apps| - 1;
      BulkPreserves(ws, names[..n], apps[..n], locations[..n]);
      var before := BulkEffect(ws, names[..n], apps[..n], locations[..n]).workspaces;
      CreateStepPreserves(before, names[n], apps[n].teams, locations[n]);
    }
  }

  /** Under the same conditions, after a bulk run a lookup of every requested name finds a workspace with an id. */
  lemma {:induction false} BulkCoversEveryApp(ws: seq<Workspace>, names: seq<string>, apps: seq<AppInfo>, locations: seq<string>)
    requires |names| == |apps| == |locations|
    requires AllIdsPresent(ws)
    requires forall i :: 0 <= i < |locations| ==> GuidFromLocation(locations[i]) != ""
    ensures forall i :: 0 <= i < |names| ==> HasExisting(BulkEffect(ws, names, apps, locations).workspaces, names[i])
  {
    if apps != [] {
      var n := |apps| - 1;
      BulkCoversEveryApp(ws, names[..n], apps[..n], locations[..n]);
      BulkPreserves(ws, names[..n], apps[..n], locations[..n]);
      var before := BulkEffect(ws, names[..n], apps[..n], locations[..n]).workspaces;
      CreateStepPreserves(before, names[n], apps[n].teams, locations[n]);
      var after := CreateEffect(before, names[n], apps[n].teams, locations[n]).workspaces;
      assert BulkEffect(ws, names, apps, locations).workspaces == after;
      CoverStep(before, after, names[..n], names);
    }
  }

  /** The names found before a step that loses nothing stay found, and the step adds the last name. */
  lemma CoverStep(before: seq<Workspace>, after: seq<Workspace>, prefix: seq<string>, names: seq<string>)
    requires names != [] && prefix == names[..|names| - 1]
    requires forall i :: 0 <= i < |prefix| ==> HasExisting(before, prefix[i])
    requires forall other :: HasExisting(before, other) ==> HasExisting(after, other)
    requires HasExisting(after, names[|names| - 1])
    ensures forall i :: 0 <= i < |names| ==> HasExisting(after, names[i])
  {
    forall i | 0 <= i < |names| - 1 ensures HasExisting(after, names[i]) {
      assert prefix[i] == names[i];
    }
  }

  /** Once every requested name has its workspace, a bulk run issues no call and changes nothing. */
  lemma {:induction false} BulkRerunIssuesNothing(ws: seq<Workspace>, names: seq<string>, apps: seq<AppInfo>, locations: seq<string>)
    requires |names| == |apps| == |locations|
    requires forall i :: 0 <= i < |names| ==> HasExisting(ws, names[i])
    ensures BulkEffect(ws, names, apps, locations) == Effect(ws, [])
  {
    if apps != [] {
      var n := |apps| - 1;
      assert forall i :: 0 <= i < n ==> names[..n][i] == names[i];
      BulkRerunIssuesNothing(ws, names[..n], apps[..n], locations[..n]);
    }
  }

  // ---------------------------------------------------------------------------
  // Cleanup path

  /** The workspaces whose project count (a missing count being 0) is 0, in listing order. */
  function Empties(ws: seq<Workspace>): seq<Workspace> {
    if ws == [] then []
    else
      var last := ws[|ws| - 1];
      Empties(ws[..|ws| - 1]) + (if ProjectCount(last) == 0 then [last] else [])
  }

  /** The ids of some workspaces. */
  function IdsOf(ws: seq<Workspace>): set<string> {
    set w | w in ws :: w.id
  }

  /** One delete call per workspace, in order. */
  function DeleteCalls(ws: seq<Workspace>): seq<Call> {
    if ws == [] then []
    else DeleteCalls(ws[..|ws| - 1]) + [DeleteCall(ws[|ws| - 1].id)]
  }

  /** Exactly one delete call per workspace, the k-th for the k-th workspace's id. */
  lemma {:induction false} DeleteCallsInOrder(ws: seq<Workspace>)
    ensures |DeleteCalls(ws)| == |ws|
    ensures forall k :: 0 <= k < |ws| ==> DeleteCalls(ws)[k] == DeleteCall(ws[k].id)
  {
    if ws != [] {
      DeleteCallsInOrder(ws[..|ws| - 1]);
    }
  }

  /** The effect of delete_workspaces on the table `ws`. */
  function CleanupEffect(ws: seq<Workspace>): Effect {
    Effect(WithoutIds(ws, IdsOf(Empties(ws))), DeleteCalls(Empties(ws)))
  }

  /** Deletes one listed workspace when it has no projects; returns how many it deleted (0 or 1). */
  method DeleteWorkspace(svc: Service, w: Workspace) returns (deleted: nat)
    modifies svc
    ensures deleted == (if ProjectCount(w) == 0 then 1 else 0)
    ensures deleted == 1 <==> w.projectsCount == None || w.projectsCount == Some(0)
    ensures ProjectCount(w) == 0 ==>
              svc.workspaces == WithoutIds(old(svc.workspaces), {w.id}) &&
              svc.calls == old(svc.calls) + [DeleteCall(w.id)]
    ensures ProjectCount(w) != 0 ==>
              svc.workspaces == old(svc.workspaces) && svc.calls == old(svc.calls)
  {
    var projects := ProjectCount(w);
    if projects == 0 {
      svc.DeleteWorkspace(w.id);
      return 1;
    } else {
      return 0;
    }
  }

  /**
   * Deletes every listed workspace without projects. The result is the total
   * that delete_workspaces prints and logs ("Deleted … workspaces"); the
   * source itself returns nothing.
   */
  method DeleteWorkspaces(svc: Service) returns (deleted: nat)
    modifies svc
    ensures deleted == |Empties(old(svc.workspaces))|
    ensures var e := CleanupEffect(old(svc.workspaces));
            svc.workspaces == e.workspaces && svc.calls == old(svc.calls) + e.issued
  {
    var listed := svc.GetWorkspaces();
    deleted := 0;
    ghost var done: seq<Workspace> := [];
    ghost var removed: set<string> := {};
    WithoutNoIds(listed);
    assert listed[..0] == [];
    for i := 0 to |listed|
      invariant done == Empties(listed[..i]) && removed == IdsOf(done)
      invariant deleted == |done|
      invariant svc.workspaces == WithoutIds(listed, removed)
      invariant svc.calls == old(svc.calls) + DeleteCalls(done)
    {
      var w := listed[i];
      EmptiesStep(listed, i);
      var n := DeleteWorkspace(svc, w);
      if ProjectCount(w) == 0 {
        DeleteStep(listed, done, removed, w);
        ConcatAssoc(old(svc.calls), DeleteCalls(done), [DeleteCall(w.id)]);
        done := done + [w];
        removed := removed + {w.id};
      }
      deleted := deleted + n;
    }
    assert listed[..|listed|] == listed;
  }

  /** Looking at one more listed workspace adds it to the empties exactly when its count is 0. */
  lemma EmptiesStep(ws: seq<Workspace>, i: nat)
    requires i < |ws|
    ensures Empties(ws[..i + 1]) == Empties(ws[..i]) + (if ProjectCount(ws[i]) == 0 then [ws[i]] else [])
  {
    assert ws[..i + 1][..i] == ws[..i];
  }

  /** Deleting one more workspace: its id joins the removed ids and its call follows the earlier ones. */
  lemma DeleteStep(ws: seq<Workspace>, done: seq<Workspace>, removed: set<string>, w: Workspace)
    requires removed == IdsOf(done)
    ensures WithoutIds(WithoutIds(ws, removed), {w.id}) == WithoutIds(ws, removed + {w.id})
    ensures IdsOf(done + [w]) == removed + {w.id}
    ensures DeleteCalls(done + [w]) == DeleteCalls(done) + [DeleteCall(w.id)]
  {
    assert (done + [w])[..|done|] == done;
    WithoutIdsTwice(ws, removed, w.id);
  }

  /** A workspace is among the deleted ones exactly when it is listed with a project count of 0. */
  lemma {:induction false} EmptiesAreTheZeroCounts(ws: seq<Workspace>)
    ensures forall w :: w in Empties(ws) <==> w in ws && (w.projectsCount == None || w.projectsCount == Some(0))
  {
    if ws != [] {
      EmptiesAreTheZeroCounts(ws[..|ws| - 1]);
      assert ws == ws[..|ws| - 1] + [ws[|ws| - 1]];
    }
  }

  /** The positions of the listing holding a workspace with a project count of 0. */
  function ZeroPositions(ws: seq<Workspace>): set<nat> {
    set i: nat | i < |ws| && (ws[i].projectsCount == None || ws[i].projectsCount == Some(0))
  }

  /** The reported total is the number of listed workspaces whose project count is 0. */
  lemma {:induction false} DeletedCountIsZeroCountTotal(ws: seq<Workspace>)
    ensures |Empties(ws)| == |ZeroPositions(ws)|
  {
    if ws != [] {
      var n := |ws| - 1;
      DeletedCountIsZeroCountTotal(ws[..n]);
      var before := ZeroPositions(ws[..n]);
      if ProjectCount(ws[n]) == 0 {
        assert ZeroPositions(ws) == before + {n};
      } else {
        assert ZeroPositions(ws) == before;
      }
    }
  }

  /** Every workspace has its own id. */
  predicate UniqueIds(ws: seq<Workspace>) {
    forall i, j :: 0 <= i < j < |ws| ==> ws[i].id != ws[j].id
  }

  /**
   * With ids that identify workspaces, cleanup removes exactly the workspaces
   * without projects and never one with projects.
   */
  lemma CleanupSparesNonEmpty(ws: seq<Workspace>)
    requires UniqueIds(ws)
    ensures forall w :: w in CleanupEffect(ws).workspaces <==> w in ws && w.projectsCount.Some? && w.projectsCount.value != 0
  {
    EmptiesAreTheZeroCounts(ws);
    WithoutIdsMembers(ws, IdsOf(Empties(ws)));
    forall w | w in ws && w.projectsCount.Some? && w.projectsCount.value != 0 ensures w.id !in IdsOf(Empties(ws)) {
      var i :| 0 <= i < |ws| && ws[i] == w;
      forall e | e in Empties(ws) ensures e.id != w.id {
        var j :| 0 <= j < |ws| && ws[j] == e;
        assert i != j;
      }
    }
  }

  /** The listing of the cleanup example: counts 0, 3 and 0 under ids "1", "2" and "3". */
  const ExampleListing: seq<Workspace> :=
    [Workspace("1", "a", Some(0)), Workspace("2", "b", Some(3)), Workspace("3", "c", Some(0))]

  /** Listing [{1, count 0}, {2, count 3}, {3, count 0}]: ids 1 and 3 are deleted, the total is 2 and workspace 2 remains. */
  lemma CleanupExample()
    ensures var e := CleanupEffect(ExampleListing);
            |Empties(ExampleListing)| == 2 &&
            e.issued == [DeleteCall("1"), DeleteCall("3")] &&
            e.workspaces == [Workspace("2", "b", Some(3))]
  {
    ExampleEmpties();
    var ws := ExampleListing;
    assert IdsOf([ws[0], ws[2]]) == {"1", "3"};
    ExampleKept();
    DeleteCallsInOrder([ws[0], ws[2]]);
  }

  /** In the example, the first and the third workspace have no projects. */
  lemma ExampleEmpties()
    ensures Empties(ExampleListing) == [ExampleListing[0], ExampleListing[2]]
  {
    var ws := ExampleListing;
    assert ws[..0] == [] && ws[..3] == ws;
    EmptiesStep(ws, 0);
    EmptiesStep(ws, 1);
    EmptiesStep(ws, 2);
  }

  /** In the example, deleting ids "1" and "3" keeps the second workspace. */
  lemma ExampleKept()
    ensures WithoutIds(ExampleListing, {"1", "3"}) == [ExampleListing[1]]
  {
    var ws := ExampleListing;
    assert ws[..2][..1] == ws[..1];
    assert WithoutIds(ws[..1], {"1", "3"}) == [];
    assert WithoutIds(ws[..2], {"1", "3"}) == [ws[1]];
  }
}
