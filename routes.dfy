/**
 * The route strings the workspaces page builds: the detail route a row's
 * link and its Details action go to, and the redirect the page issues when
 * it is addressed with a workspace id.
 */
module Routes {
  import opened Wrappers

  /** `'/workspaces/' + id` */
  function DetailRoute(id: string): string {
    "/workspaces/" + id
  }

  /** `/workspaces/${workspaceId}/projects` */
  function ProjectsRoute(id: string): string {
    "/workspaces/" + id + "/projects"
  }

  /**
   * The page redirects to the workspace's projects exactly when the route
   * parameter `workspaceId` is truthy, that is, non-empty.
   */
  function RedirectRoute(workspaceId: string): (target: Option<string>)
    ensures target.Some? <==> workspaceId != ""
    ensures target.Some? ==> target.value == DetailRoute(workspaceId) + "/projects"
  {
    if workspaceId != "" then Some(ProjectsRoute(workspaceId)) else None
  }

  /** Distinct workspaces have distinct detail routes. */
  lemma DetailRouteInjective(a: string, b: string)
    requires DetailRoute(a) == DetailRoute(b)
    ensures a == b
  {
    assert a == DetailRoute(a)[12..];
    assert b == DetailRoute(b)[12..];
  }

  /** Distinct workspaces are redirected to distinct project routes. */
  lemma ProjectsRouteInjective(a: string, b: string)
    requires ProjectsRoute(a) == ProjectsRoute(b)
    ensures a == b
  {
    var pa, pb := ProjectsRoute(a), ProjectsRoute(b);
    assert |a| == |b|;
    assert a == pa[12..12 + |a|];
    assert b == pb[12..12 + |b|];
  }
}
