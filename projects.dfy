/** Resolving a project name against the projects directory; deploy.py and
    watcher.py carry identical copies of this function. */
module Projects {
  import opened Wrappers
  import opened FileSystem

  /** `os.path.join(projects_dir, name)` for a name of one path component:
      the empty name joins to the projects directory itself. */
  function ProjectPath(projectsDir: Path, name: string): Path {
    if name == "" then projectsDir else projectsDir + [name]
  }

  /** `get_project_dir(projects_dir, project_name)` once the name is known
      (asking for it on the console is the caller's part). */
  function GetProjectDir(tree: Tree, projectsDir: Path, name: string): (r: Result<Path, Error>)
    ensures r.Ok? <==> IsDir(tree, ProjectPath(projectsDir, name))
    ensures r.Ok? ==> r.value == ProjectPath(projectsDir, name)
    ensures r.Err? && IsDir(tree, projectsDir) ==>
              r.error == ProjectNotFound(name, ProjectPath(projectsDir, name), tree[projectsDir].listing)
    ensures r.Err? && !IsDir(tree, projectsDir) ==> r.error == ListDir(tree, projectsDir).error
  {
    var projectDir := ProjectPath(projectsDir, name);
    if IsDir(tree, projectDir) then Ok(projectDir)
    else match ListDir(tree, projectsDir)
      case Ok(projects) => Err(ProjectNotFound(name, projectDir, projects))
      case Err(e) => Err(e)
  }

  /** A resolved project with a non-empty name lies directly inside the
      projects directory and is itself a directory; an unresolved one never
      reports another path. */
  lemma ProjectDirIsChild(tree: Tree, projectsDir: Path, name: string)
    ensures var r := GetProjectDir(tree, projectsDir, name);
            r.Ok? && name != "" ==> Parent(r.value) == projectsDir && Last(r.value) == name && IsDir(tree, r.value)
    ensures var r := GetProjectDir(tree, projectsDir, name);
            r.Err? && r.error.ProjectNotFound? && name != "" ==> r.error.name == name && r.error.path == projectsDir + [name]
  {
  }

  /** The empty name resolves to the projects directory itself whenever it
      is a directory, and fails only with the listing's own error. */
  lemma EmptyNameIsProjectsDir(tree: Tree, projectsDir: Path)
    ensures GetProjectDir(tree, projectsDir, "") ==
              if IsDir(tree, projectsDir) then Ok(projectsDir) else Err(ListDir(tree, projectsDir).error)
  {
  }
}
