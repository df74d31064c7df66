/** The watcher script: a change handler that copies every changed file of
    the project onto the board, except during a quiet period after it was
    set up. Time is a whole number of seconds passed in by the caller. */
module Watcher {
  import opened Wrappers
  import opened FileSystem
  import Projects
  import opened Sequences

  const DefaultUpdateMinSeconds: int := 5

  /** A filesystem event as the observer reports it. */
  datatype Event = Event(srcPath: Path, isDirectory: bool)

  /** An event together with the time `dispatch` reads from the clock. */
  datatype Arrival = Arrival(event: Event, at: int)

  /** `check_directory_exists(directory)` */
  function CheckDirectoryExists(tree: Tree, directory: Path): (r: Outcome<Error>)
    ensures r == Pass <==> IsDir(tree, directory)
    ensures r.Fail? ==> r.error == NoDirectory(directory)
  {
    if IsDir(tree, directory) then Pass else Fail(NoDirectory(directory))
  }

  /** The decision `dispatch` takes for one event: too early after
      `lastUpdateAt`, or a directory, means no copy. */
  predicate Accepted(lastUpdateAt: int, updateMinSeconds: int, event: Event, now: int) {
    !(now - lastUpdateAt < updateMinSeconds) && !event.isDirectory
  }

  /** The copies one `dispatch` issues: `send_file(src_path)` into the
      destination, or nothing. */
  function Reaction(toDir: Path, lastUpdateAt: int, updateMinSeconds: int, event: Event, now: int): seq<Action> {
    if Accepted(lastUpdateAt, updateMinSeconds, event, now) then [Copied(event.srcPath, toDir)] else []
  }

  class Handler {
    var toDir: Path
    var lastUpdateAt: int
    var updateMinSeconds: int

    /** The field assignments of `__init__`, once the destination has been checked. */
    constructor (toDir: Path, now: int, updateMinSeconds: int := DefaultUpdateMinSeconds)
      ensures this.toDir == toDir && lastUpdateAt == now && this.updateMinSeconds == updateMinSeconds
    {
      this.toDir := toDir;
      lastUpdateAt := now;
      this.updateMinSeconds := updateMinSeconds;
    }

    /** `send_file(filepath)`: one `cp -rp` into the destination itself. */
    method SendFile(disk: Disk, filepath: Path)
      modifies disk
      ensures disk.tree == old(disk.tree) && disk.log == old(disk.log) + [Copied(filepath, toDir)]
    {
      disk.Copy(filepath, toDir);
    }

    /** `dispatch(event)` at time `now`; the handler's own fields never change. */
    method Dispatch(disk: Disk, event: Event, now: int)
      modifies disk
      ensures unchanged(this)
      ensures disk.tree == old(disk.tree)
      ensures disk.log == old(disk.log) + Reaction(toDir, lastUpdateAt, updateMinSeconds, event, now)
    {
      AppendEmpty(disk.log);
      var t1 := now;
      if t1 - lastUpdateAt < updateMinSeconds {
        return;
      }
      if event.isDirectory {
        return;
      }
      SendFile(disk, event.srcPath);
    }

    /** The observer handing each arrival to `dispatch` in turn: the copies
        issued are exactly `Sent`. */
    method DispatchAll(disk: Disk, arrivals: seq<Arrival>)
      modifies disk
      ensures unchanged(this)
      ensures disk.tree == old(disk.tree)
      ensures disk.log == old(disk.log) + Sent(toDir, lastUpdateAt, updateMinSeconds, arrivals)
    {
      AppendEmpty(disk.log);
      for i := 0 to |arrivals|
        invariant disk.tree == old(disk.tree)
        invariant disk.log == old(disk.log) + Sent(toDir, lastUpdateAt, updateMinSeconds, arrivals[..i])
      {
        TakeOneMore(arrivals, i);
        AppendAssoc(old(disk.log), Sent(toDir, lastUpdateAt, updateMinSeconds, arrivals[..i]),
                    Reaction(toDir, lastUpdateAt, updateMinSeconds, arrivals[i].event, arrivals[i].at));
        Dispatch(disk, arrivals[i].event, arrivals[i].at);
      }
      TakeAll(arrivals);
    }
  }

  /** `Handler(to_dir, update_min_seconds)`: fails unless `to_dir` is an
      existing directory; the construction time starts the quiet period. */
  method NewHandler(tree: Tree, toDir: Path, now: int, updateMinSeconds: int := DefaultUpdateMinSeconds)
    returns (r: Result<Handler, Error>)
    ensures r.Ok? <==> IsDir(tree, toDir)
    ensures r.Err? ==> r.error == NoDirectory(toDir)
    ensures r.Ok? ==> fresh(r.value) && r.value.toDir == toDir && r.value.lastUpdateAt == now
                      && r.value.updateMinSeconds == updateMinSeconds
  {
    var checked := CheckDirectoryExists(tree, toDir);
    if checked.Fail? {
      return Err(checked.error);
    }
    var h := new Handler(toDir, now, updateMinSeconds);
    return Ok(h);
  }

  /** The copies a handler issues for a run of arrivals, each handled by
      `dispatch` in turn. */
  function Sent(toDir: Path, lastUpdateAt: int, updateMinSeconds: int, arrivals: seq<Arrival>): seq<Action> {
    if arrivals == [] then []
    else Sent(toDir, lastUpdateAt, updateMinSeconds, arrivals[..|arrivals| - 1])
         + Reaction(toDir, lastUpdateAt, updateMinSeconds, arrivals[|arrivals| - 1].event, arrivals[|arrivals| - 1].at)
  }

  /** The file events among the arrivals, as the copies that send them. */
  function FileCopies(toDir: Path, arrivals: seq<Arrival>): seq<Action> {
    if arrivals == [] then []
    else FileCopies(toDir, arrivals[..|arrivals| - 1])
         + (var e := arrivals[|arrivals| - 1].event; if e.isDirectory then [] else [Copied(e.srcPath, toDir)])
  }

  /** An event `updateMinSeconds` or more after construction is handled on
      its own merits, and one exactly at the end of the window is not
      dropped; anything earlier is. */
  lemma WindowBoundary(toDir: Path, lastUpdateAt: int, updateMinSeconds: int, event: Event, now: int)
    ensures now < lastUpdateAt + updateMinSeconds ==> Reaction(toDir, lastUpdateAt, updateMinSeconds, event, now) == []
    ensures now == lastUpdateAt + updateMinSeconds && !event.isDirectory ==>
              Reaction(toDir, lastUpdateAt, updateMinSeconds, event, now) == [Copied(event.srcPath, toDir)]
    ensures event.isDirectory ==> Reaction(toDir, lastUpdateAt, updateMinSeconds, event, now) == []
  {
  }

  /** Once the window after construction has passed, every file event is
      copied, in arrival order, and no directory event is. */
  lemma {:induction false} AfterWindowEveryFileIsSent(toDir: Path, lastUpdateAt: int, updateMinSeconds: int,
                                                      arrivals: seq<Arrival>)
    requires forall k :: 0 <= k < |arrivals| ==> arrivals[k].at >= lastUpdateAt + updateMinSeconds
    ensures Sent(toDir, lastUpdateAt, updateMinSeconds, arrivals) == FileCopies(toDir, arrivals)
  {
    if arrivals != [] {
      AfterWindowEveryFileIsSent(toDir, lastUpdateAt, updateMinSeconds, arrivals[..|arrivals| - 1]);
    }
  }

  /** Nothing is copied while the window after construction lasts. */
  lemma {:induction false} WithinWindowNothingIsSent(toDir: Path, lastUpdateAt: int, updateMinSeconds: int,
                                                     arrivals: seq<Arrival>)
    requires forall k :: 0 <= k < |arrivals| ==> arrivals[k].at < lastUpdateAt + updateMinSeconds
    ensures Sent(toDir, lastUpdateAt, updateMinSeconds, arrivals) == []
  {
    if arrivals != [] {
      WithinWindowNothingIsSent(toDir, lastUpdateAt, updateMinSeconds, arrivals[..|arrivals| - 1]);
    }
  }

  /** Every copy sends the source of some file event into the root of the
      destination; directories are never copied. */
  lemma {:induction false} SentAreFileEvents(toDir: Path, lastUpdateAt: int, updateMinSeconds: int,
                                             arrivals: seq<Arrival>)
    ensures var s := Sent(toDir, lastUpdateAt, updateMinSeconds, arrivals);
            |s| <= |arrivals|
            && forall a :: a in s ==>
                 (a.Copied? && a.dst == toDir
                  && exists k :: 0 <= k < |arrivals| && !arrivals[k].event.isDirectory
                                 && a.src == arrivals[k].event.srcPath)
  {
    if arrivals != [] {
      var init := arrivals[..|arrivals| - 1];
      SentAreFileEvents(toDir, lastUpdateAt, updateMinSeconds, init);
      forall a | a in Sent(toDir, lastUpdateAt, updateMinSeconds, init)
        ensures exists k :: 0 <= k < |arrivals| && !arrivals[k].event.isDirectory
                            && a.src == arrivals[k].event.srcPath
      {
        var k :| 0 <= k < |init| && !init[k].event.isDirectory && a.src == init[k].event.srcPath;
        assert init[k] == arrivals[k];
      }
    }
  }

  /** The quiet period is measured from construction only: two file events
      one second apart, once the window is over, are both copied. */
  lemma NoDebounceBetweenEvents(toDir: Path, a: Path, b: Path)
    ensures var arrivals := [Arrival(Event(a, false), 10), Arrival(Event(b, false), 11)];
            Sent(toDir, 0, DefaultUpdateMinSeconds, arrivals) == [Copied(a, toDir), Copied(b, toDir)]
  {
    var arrivals := [Arrival(Event(a, false), 10), Arrival(Event(b, false), 11)];
    assert arrivals[..1] == [Arrival(Event(a, false), 10)];
    assert arrivals[..1][..0] == [];
    assert Sent(toDir, 0, DefaultUpdateMinSeconds, arrivals[..1]) == [Copied(a, toDir)];
  }

  /** The script's main block up to the observer: resolve the project
      (asking for its name on the console when none is given), then set up
      a handler that copies onto the board. */
  method Start(tree: Tree, projectsDir: Path, projectName: Option<string>, inputs: seq<string>,
               circuitpyDir: Path, now: int)
    returns (r: Result<(Path, Handler), Error>)
    ensures projectName.None? && inputs == [] ==> r == Err(EndOfInput)
    ensures var name := if projectName.Some? then projectName.value else if inputs == [] then "" else inputs[0];
            var project := Projects.GetProjectDir(tree, projectsDir, name);
            (projectName.Some? || inputs != []) ==>
              (r.Ok? <==> project.Ok? && IsDir(tree, circuitpyDir))
              && (project.Err? ==> r == Err(project.error))
              && (project.Ok? && !IsDir(tree, circuitpyDir) ==> r == Err(NoDirectory(circuitpyDir)))
              && (r.Ok? ==> r.value.0 == project.value && fresh(r.value.1)
                            && r.value.1.toDir == circuitpyDir && r.value.1.lastUpdateAt == now
                            && r.value.1.updateMinSeconds == DefaultUpdateMinSeconds)
  {
    var name;
    if projectName.Some? {
      name := projectName.value;
    } else {
      if inputs == [] {
        return Err(EndOfInput);
      }
      name := inputs[0];
    }
    var project := Projects.GetProjectDir(tree, projectsDir, name);
    if project.Err? {
      return Err(project.error);
    }
    var handler := NewHandler(tree, circuitpyDir, now);
    if handler.Err? {
      return Err(handler.error);
    }
    return Ok((project.value, handler.value));
  }
}
