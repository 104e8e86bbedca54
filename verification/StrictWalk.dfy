/**
 The component-by-component open of strict mode.
 */
module StrictWalk {
  import opened Options
  import opened Text
  import opened Os
  import opened StrictPaths

  // ----- the walk on values -----

  /** The file reached, if any, and the system calls made, in order. */
  datatype Walked = Walked(leaf: Option<Inode>, calls: seq<Call>)

  /** The flags with which the loader asks for the dictionary itself. */
  const LEAF_FLAGS: Flags := Flags(false, false)

  /** The flags of the walk: the loader's and O_NOFOLLOW for the last component, O_DIRECTORY and O_NOFOLLOW before it. */
  function FlagsFor(last: bool): Flags {
    if last then LEAF_FLAGS.(nofollow := true) else Flags(true, true)
  }

  /** One component: from the open directory `dir` to its entry, which is vetted if the walk goes deeper. */
  function Enter(env: Env, t: nat, dir: Inode, component: string, deeper: bool): Walked {
    if !Usable(component) then Walked(None, [Close(dir)])
    else
      var name := CString(component);
      var flags := FlagsFor(!deeper);
      var tries := [OpenAt(dir, name, flags), Close(dir)];
      match env.Lookup(t, dir, name, flags)
      case None => Walked(None, tries)
      case Some(next) =>
        if !deeper then Walked(Some(next), tries)
        else if !env.Vetted(t + 2, next) then Walked(None, tries + [Fstat(next), Close(next)])
        else Walked(Some(next), tries + [Fstat(next)])
  }

  /** From the open directory `dir` down the components `cs`. */
  function Descend(env: Env, t: nat, dir: Inode, cs: seq<string>): Walked
    requires cs != []
    decreases |cs|
  {
    var first := Enter(env, t, dir, cs[0], |cs| > 1);
    if first.leaf.None? || |cs| == 1 then first
    else
      var rest := Descend(env, t + |first.calls|, first.leaf.value, cs[1..]);
      rest.(calls := first.calls + rest.calls)
  }

  /** The rest of a walk that has the directory `dir` open and the components `cs` to go. */
  function Remaining(env: Env, t: nat, dir: Inode, cs: seq<string>): Walked {
    if cs == [] then Walked(None, [Close(dir)]) else Descend(env, t, dir, cs)
  }

  function Walk(env: Env, t: nat, path: string): Walked {
    if path == "" || path[0] != '/' then Walked(None, [])
    else if env.fails(t) then Walked(None, [OpenRoot])
    else if !env.Vetted(t + 1, env.root) then Walked(None, [OpenRoot, Fstat(env.root), Close(env.root)])
    else
      var w := Remaining(env, t + 2, env.root, Components(path, 1));
      w.(calls := [OpenRoot, Fstat(env.root)] + w.calls)
  }

  // ----- the program -----

  method CheckStrictDir(os: Process, fd: int) returns (ok: bool)
    requires fd in os.files
    modifies os`log
    ensures os.log == old(os.log) + [Fstat(os.files[fd].inode)]
    ensures ok == os.env.Vetted(|old(os.log)|, os.files[fd].inode)
  {
    var st := os.StatOf(fd);
    if st.None? {
      return false;
    }
    if st.value.uid != 0 && st.value.uid != os.env.euid {
      return false;
    }
    ok := st.value.mode & WRITABLE_BY_OTHERS == 0;
  }

  method NextComponent(path: string, p: nat) returns (start: nat, end: nat, last: bool)
    requires p <= |path|
    ensures start == SkipSlashes(path, p) && start <= end <= |path|
    ensures start < |path| ==> end == Until(path, start, SLASH) && last == (Components(path, end) == [])
    ensures Components(path, p) == if start == |path| then [] else [path[start..end]] + Components(path, end)
    ensures start < |path| ==> start < end
  {
    start := p;
    while start < |path| && path[start] == '/'
      invariant p <= start <= |path| && SkipSlashes(path, start) == SkipSlashes(path, p)
    {
      start := start + 1;
    }
    end, last := start, true;
    while end < |path| && path[end] != '/'
      invariant start <= end <= |path| && Until(path, end, SLASH) == Until(path, start, SLASH)
    {
      end := end + 1;
    }
    var q := end;
    while q < |path|
      invariant end <= q <= |path| && last && SkipSlashes(path, q) == SkipSlashes(path, end)
    {
      if path[q] != '/' {
        last := false;
        break;
      }
      q := q + 1;
    }
  }

  /** Trades the directory `fd` for its entry `component`. */
  method OpenComponent(os: Process, fd: int, component: string, last: bool) returns (next: int)
    requires fd in os.files
    modifies os
    ensures var w := Enter(os.env, |old(os.log)|, old(os.files)[fd].inode, component, !last);
            os.log == old(os.log) + w.calls && Gains(old(os.files) - {fd}, os.files, next, w.leaf)
  {
    if |component| >= NGX_MAX_PATH {
      var _ := os.CloseFile(fd);
      return -1;
    }
    var comp := CString(component);
    if comp == "." || comp == ".." {
      var _ := os.CloseFile(fd);
      return -1;
    }
    ghost var files := os.files;
    var flags := if last then LEAF_FLAGS.(nofollow := true) else Flags(true, true);
    next := os.OpenEntry(fd, comp, flags);
    var _ := os.CloseFile(fd);
    if next < 0 {
      return -1;
    }
    Handover(files, fd, next, os.files);
    if last {
      return next;
    }
    var ok := CheckStrictDir(os, next);
    if !ok {
      var _ := os.CloseFile(next);
      return -1;
    }
  }

  lemma RemainingStep(env: Env, t: nat, dir: Inode, cs: seq<string>)
    ensures cs == [] ==> Remaining(env, t, dir, cs) == Walked(None, [Close(dir)])
    ensures cs != [] ==>
              var first := Enter(env, t, dir, cs[0], |cs| > 1);
              Remaining(env, t, dir, cs) ==
              if first.leaf.None? || |cs| == 1 then first
              else var rest := Remaining(env, t + |first.calls|, first.leaf.value, cs[1..]); rest.(calls := first.calls + rest.calls)
  {
    hide Enter;
  }

  /** From the root, open as `root`, down the components of `path`. */
  method FollowPath(os: Process, root: int, path: string) returns (fd: int)
    requires root in os.files && path != ""
    modifies os
    ensures var w := Remaining(os.env, |old(os.log)|, old(os.files)[root].inode, Components(path, 1));
            os.log == old(os.log) + w.calls && Gains(old(os.files) - {root}, os.files, fd, w.leaf)
  {
    hide Enter, Descend, CString, Usable, Components, Remaining;
    var start := 1;
    fd := root;
    ghost var before, files := os.log, os.files - {root};
    ghost var walk := Remaining(os.env, |before|, os.files[root].inode, Components(path, 1));
    while true
      invariant 1 <= start <= |path| && fd in os.files && os.files - {fd} == files
      invariant before <= os.log
      invariant var w := Remaining(os.env, |os.log|, os.files[fd].inode, Components(path, start));
                walk.leaf == w.leaf && before + walk.calls == os.log + w.calls
      decreases |path| - start
    {
      ghost var dir, cs, t := os.files[fd].inode, Components(path, start), |os.log|;
      RemainingStep(os.env, t, dir, cs);
      var p, last;
      start, p, last := NextComponent(path, start);
      if start >= |path| {
        var _ := os.CloseFile(fd);
        return -1;
      }
      assert cs[0] == path[start..p] && cs[1..] == Components(path, p);
      fd := OpenComponent(os, fd, path[start..p], last);
      if fd < 0 || last {
        return fd;
      }
      start := p;
    }
  }

  /** Opens `path` one component at a time; every descriptor but the one returned is closed again. */
  method OpenDictStrict(os: Process, path: string) returns (fd: int)
    modifies os
    ensures os.log == old(os.log) + Walk(os.env, |old(os.log)|, path).calls
    ensures Gains(old(os.files), os.files, fd, Walk(os.env, |old(os.log)|, path).leaf)
  {
    hide Descend, Components;
    if path == "" || path[0] != '/' {
      return -1;
    }
    fd := os.OpenTheRoot();
    if fd < 0 {
      return -1;
    }
    Released(old(os.files), fd, os.files[fd]);
    var ok := CheckStrictDir(os, fd);
    if !ok {
      var _ := os.CloseFile(fd);
      return -1;
    }
    fd := FollowPath(os, fd, path);
  }

  /** The new descriptor takes the place of the old. */
  lemma Handover(files: Files, fd: int, next: int, after: Files)
    requires fd in files && next !in files && next in after && after == files[next := after[next]] - {fd}
    ensures after == (files - {fd})[next := after[next]] && after - {next} == files - {fd}
  {}

  lemma Released(files: Files, fd: int, f: OpenFile)
    requires fd !in files
    ensures files[fd := f] - {fd} == files
  {}
}
