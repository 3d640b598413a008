/**
 * The remote side of vcworkspace.py: the records it reads and the
 * workspace service it changes.
 *
 * The REST client is replaced by the class Service, which holds the
 * service's workspace table and a log of the changing calls issued to it
 * (create, team assignment, delete), in the order they were issued.
 */
module Remote {
  import opened Optional
  import Location

  /** A workspace as listed by the service; `id` is "" when the record has none. */
  datatype Workspace = Workspace(id: string, name: string, projectsCount: Option<int>)

  /** One team entry of an application profile. */
  datatype Team = Team(teamId: string)

  /** An application profile: its guid, its name and its teams, in profile order. */
  datatype AppInfo = AppInfo(guid: string, name: string, teams: seq<Team>)

  /** A changing call issued to the workspace service. */
  datatype Call =
    | CreateCall(name: string)
    | AddTeamCall(workspaceGuid: string, teamId: string)
    | DeleteCall(id: string)

  /** `workspace.get('projects_count', 0)`: a missing count reads as 0. */
  function ProjectCount(w: Workspace): (n: int)
    ensures w.projectsCount == None ==> n == 0
    ensures w.projectsCount.Some? ==> n == w.projectsCount.value
  {
    match w.projectsCount
    case None => 0
    case Some(count) => count
  }

  /** The answer to a lookup by exact name: the workspaces with that name, in table order. */
  function Named(ws: seq<Workspace>, name: string): (r: seq<Workspace>)
    ensures |r| <= |ws|
  {
    if ws == [] then []
    else
      var last := ws[|ws| - 1];
      Named(ws[..|ws| - 1], name) + (if last.name == name then [last] else [])
  }

  /** The table once every workspace whose id is in `ids` is gone; the others keep their order. */
  function WithoutIds(ws: seq<Workspace>, ids: set<string>): (r: seq<Workspace>)
    ensures |r| <= |ws|
  {
    if ws == [] then []
    else
      var last := ws[|ws| - 1];
      WithoutIds(ws[..|ws| - 1], ids) + (if last.id in ids then [] else [last])
  }

  /** The lookup finds exactly the workspaces with that name. */
  lemma {:induction false} NamedMembers(ws: seq<Workspace>, name: string)
    ensures forall w :: w in Named(ws, name) <==> w in ws && w.name == name
  {
    if ws != [] {
      NamedMembers(ws[..|ws| - 1], name);
      assert ws == ws[..|ws| - 1] + [ws[|ws| - 1]];
    }
  }

  /** Exactly the workspaces whose id is not in `ids` remain. */
  lemma {:induction false} WithoutIdsMembers(ws: seq<Workspace>, ids: set<string>)
    ensures forall w :: w in WithoutIds(ws, ids) <==> w in ws && w.id !in ids
  {
    if ws != [] {
      WithoutIdsMembers(ws[..|ws| - 1], ids);
      assert ws == ws[..|ws| - 1] + [ws[|ws| - 1]];
    }
  }

  /** Removing one more id after a set of ids is removing the larger set at once. */
  lemma {:induction false} WithoutIdsTwice(ws: seq<Workspace>, ids: set<string>, id: string)
    ensures WithoutIds(WithoutIds(ws, ids), {id}) == WithoutIds(ws, ids + {id})
  {
    if ws != [] {
      var init, last := ws[..|ws| - 1], ws[|ws| - 1];
      WithoutIdsTwice(init, ids, id);
      var kept := WithoutIds(init, ids);
      if last.id in ids {
        assert WithoutIds(ws, ids) == kept;
      } else {
        var both := kept + [last];
        assert WithoutIds(ws, ids) == both;
        assert both[..|both| - 1] == kept && both[|both| - 1] == last;
        assert WithoutIds(both, {id}) == WithoutIds(kept, {id}) + (if last.id in {id} then [] else [last]);
      }
    }
  }

  /** Removing no id changes nothing. */
  lemma {:induction false} WithoutNoIds(ws: seq<Workspace>)
    ensures WithoutIds(ws, {}) == ws
  {
    if ws != [] {
      WithoutNoIds(ws[..|ws| - 1]);
    }
  }

  /** The workspace service as the script sees it. */
  class Service {
    /** The service's workspaces, in listing order. */
    var workspaces: seq<Workspace>
    /** The changing calls issued so far, oldest first. */
    var calls: seq<Call>

    constructor (initial: seq<Workspace>)
      ensures workspaces == initial && calls == []
    {
      workspaces := initial;
      calls := [];
    }

    /** Lists every workspace. */
    method GetWorkspaces() returns (r: seq<Workspace>)
      ensures r == workspaces
    {
      r := workspaces;
    }

    /** Looks up the workspaces with exactly this name; changes nothing. */
    method GetWorkspaceByName(name: string) returns (r: seq<Workspace>)
      ensures r == Named(workspaces, name)
    {
      r := Named(workspaces, name);
    }

    /**
     * Creates a workspace. `location` is the URL the service answers with
     * (its own choice, so a parameter of the model); the new workspace is
     * filed under the id that the URL's last segment names, with no projects.
     */
    method CreateWorkspace(name: string, location: string)
      modifies this
      ensures workspaces == old(workspaces) + [Workspace(Location.GuidFromLocation(location), name, Some(0))]
      ensures calls == old(calls) + [CreateCall(name)]
    {
      workspaces := workspaces + [Workspace(Location.GuidFromLocation(location), name, Some(0))];
      calls := calls + [CreateCall(name)];
    }

    /** Associates a team with a workspace; the workspace table is unchanged. */
    method AddWorkspaceTeam(workspaceGuid: string, teamId: string)
      modifies this
      ensures workspaces == old(workspaces)
      ensures calls == old(calls) + [AddTeamCall(workspaceGuid, teamId)]
    {
      calls := calls + [AddTeamCall(workspaceGuid, teamId)];
    }

    /** Deletes the workspace with this id. */
    method DeleteWorkspace(id: string)
      modifies this
      ensures workspaces == WithoutIds(old(workspaces), {id})
      ensures calls == old(calls) + [DeleteCall(id)]
    {
      workspaces := WithoutIds(workspaces, {id});
      calls := calls + [DeleteCall(id)];
    }
  }
}
