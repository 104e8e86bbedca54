/**
 What the strict walk guarantees.
 */
module StrictChain {
  import opened Options
  import opened Os
  import opened StrictPaths
  import opened StrictWalk

  /** `i` is the very entry `name` of the directory `base`, no symbolic link, and a directory if the walk goes deeper. */
  predicate Direct(env: Env, t: nat, base: Inode, name: string, i: Inode, deeper: bool) {
    && !env.fails(t) && env.kind(base) == Directory && name != ""
    && env.entry(t, base, name) == Some(i)
    && env.kind(i) != Symlink && (deeper ==> env.kind(i) == Directory)
  }

  /** With the flags of the walk openat() gives the entry itself, and only if it is no link. */
  lemma LookupIsDirect(env: Env, t: nat, base: Inode, name: string, deeper: bool)
    ensures forall i: Inode :: env.Lookup(t, base, name, FlagsFor(!deeper)) == Some(i) <==> Direct(env, t, base, name, i, deeper)
  {}

  /** From `ds[k]`, vetted after it was opened, the component `k` leads to `ds[k + 1]`. */
  predicate LinkAt(env: Env, t: nat, cs: seq<string>, ds: seq<Inode>, k: nat)
    requires k < |cs| && |ds| == |cs| + 1
  {
    && |cs[k]| < 4096 && CString(cs[k]) != "." && CString(cs[k]) != ".."
    && Direct(env, t + 3 * k, ds[k], CString(cs[k]), ds[k + 1], k + 1 < |cs|)
    && (k > 0 ==> env.Vetted(t + 3 * k - 1, ds[k]))
  }

  /** `ds` are the files met on the way down `cs`. */
  predicate Chain(env: Env, t: nat, cs: seq<string>, ds: seq<Inode>) {
    |ds| == |cs| + 1 && forall k | 0 <= k < |cs| :: LinkAt(env, t, cs, ds, k)
  }

  lemma LinkShift(env: Env, t: nat, cs: seq<string>, ds: seq<Inode>, k: nat)
    requires k + 1 < |cs| && |ds| == |cs| + 1
    ensures LinkAt(env, t, cs, ds, k + 1) <==>
            LinkAt(env, t + 3, cs[1..], ds[1..], k) && (k == 0 ==> env.Vetted(t + 2, ds[1]))
  {
    hide Usable, CString, Direct, Env.Vetted;
    assert t + 3 + 3 * k == t + 3 * (k + 1);
  }

  lemma ChainStep(env: Env, t: nat, cs: seq<string>, ds: seq<Inode>)
    requires |cs| > 1 && |ds| == |cs| + 1
    ensures Chain(env, t, cs, ds) <==>
            LinkAt(env, t, cs, ds, 0) && env.Vetted(t + 2, ds[1]) && Chain(env, t + 3, cs[1..], ds[1..])
  {
    hide LinkAt, Env.Vetted;
    var t', cs', ds' := t + 3, cs[1..], ds[1..];
    forall k | 0 < k < |cs|
      ensures LinkAt(env, t, cs, ds, k) <==> LinkAt(env, t', cs', ds', k - 1) && (k == 1 ==> env.Vetted(t + 2, ds[1]))
    {
      LinkShift(env, t, cs, ds, k - 1);
    }
    if Chain(env, t, cs, ds) {
      assert LinkAt(env, t, cs, ds, 1);
      forall k | 0 <= k < |cs'| ensures LinkAt(env, t', cs', ds', k) {
        assert LinkAt(env, t, cs, ds, k + 1);
      }
    }
  }

  lemma {:induction false} DescendChains(env: Env, t: nat, dir: Inode, cs: seq<string>) returns (ds: seq<Inode>)
    requires cs != [] && Descend(env, t, dir, cs).leaf.Some?
    ensures Chain(env, t, cs, ds) && ds[0] == dir && ds[|cs|] == Descend(env, t, dir, cs).leaf.value
    decreases |cs|
  {
    hide CString, Env.Lookup, Direct, Env.Vetted, Chain, FlagsFor;
    LookupIsDirect(env, t, dir, CString(cs[0]), |cs| > 1);
    var next := Enter(env, t, dir, cs[0], |cs| > 1).leaf.value;
    ds := [dir, next];
    if |cs| > 1 {
      var rest := DescendChains(env, t + 3, next, cs[1..]);
      ChainLength(env, t + 3, cs[1..], rest);
      ds := [dir] + rest;
      assert ds[1..] == rest;
      ChainStep(env, t, cs, ds);
    } else {
      ChainOfOne(env, t, cs, ds);
    }
  }

  lemma ChainOfOne(env: Env, t: nat, cs: seq<string>, ds: seq<Inode>)
    requires |cs| == 1 && |ds| == 2
    ensures Chain(env, t, cs, ds) <==> LinkAt(env, t, cs, ds, 0)
  {
    hide LinkAt;
  }

  lemma {:induction false} ChainDescends(env: Env, t: nat, cs: seq<string>, ds: seq<Inode>)
    requires cs != [] && |ds| == |cs| + 1 && Chain(env, t, cs, ds)
    ensures Descend(env, t, ds[0], cs).leaf == Some(ds[|cs|])
    decreases |cs|
  {
    hide CString, Env.Lookup, Direct, Env.Vetted, Chain, FlagsFor;
    LookupIsDirect(env, t, ds[0], CString(cs[0]), |cs| > 1);
    if |cs| > 1 {
      ChainStep(env, t, cs, ds);
      ChainDescends(env, t + 3, cs[1..], ds[1..]);
    } else {
      ChainOfOne(env, t, cs, ds);
    }
  }

  /** The walk opens `x` exactly when a chain of vetted directories leads from a vetted root to it. */
  lemma WalkExactly(env: Env, t: nat, path: string, x: Inode)
    ensures Walk(env, t, path).leaf == Some(x) <==>
            && path != "" && path[0] == '/' && !env.fails(t) && env.Vetted(t + 1, env.root)
            && var cs := Components(path, 1);
               cs != [] && exists ds :: Chain(env, t + 2, cs, ds) && ds[0] == env.root && ds[|cs|] == x
  {
    hide Descend, Chain, Components;
    if path != "" && path[0] == '/' && Components(path, 1) != [] {
      var cs := Components(path, 1);
      if Descend(env, t + 2, env.root, cs).leaf.Some? {
        var ds := DescendChains(env, t + 2, env.root, cs);
        ChainLength(env, t + 2, cs, ds);
      }
      forall ds | Chain(env, t + 2, cs, ds)
        ensures |ds| == |cs| + 1 && (ds[0] == env.root ==> Descend(env, t + 2, env.root, cs).leaf == Some(ds[|cs|]))
      {
        ChainLength(env, t + 2, cs, ds);
        ChainDescends(env, t + 2, cs, ds);
      }
    }
  }

  lemma ChainLength(env: Env, t: nat, cs: seq<string>, ds: seq<Inode>)
    requires Chain(env, t, cs, ds)
    ensures |ds| == |cs| + 1
  {}

  /** No link is met on the way, the last file included, and every file but the last is a directory. */
  lemma NoLinkFollowed(env: Env, t: nat, cs: seq<string>, ds: seq<Inode>, k: nat)
    requires Chain(env, t, cs, ds) && 0 < k <= |cs|
    ensures env.kind(ds[k]) != Symlink && (k < |cs| ==> env.kind(ds[k]) == Directory)
  {
    assert LinkAt(env, t, cs, ds, k - 1);
  }

  /** No name given to openat() is "." or "..", nor too long. */
  predicate NoDots(calls: seq<Call>) {
    forall c | c in calls && c.OpenAt? :: c.name != "." && c.name != ".." && |c.name| < 4096
  }

  lemma {:induction false} DescendHasNoDots(env: Env, t: nat, dir: Inode, cs: seq<string>)
    requires cs != []
    ensures NoDots(Descend(env, t, dir, cs).calls)
    decreases |cs|
  {
    hide CString, Env.Lookup, Env.Vetted;
    var first := Enter(env, t, dir, cs[0], |cs| > 1);
    CStringShorter(cs[0]);
    assert NoDots(first.calls);
    if first.leaf.Some? && |cs| > 1 {
      hide Enter;
      DescendHasNoDots(env, t + |first.calls|, first.leaf.value, cs[1..]);
    }
  }

  lemma CStringShorter(component: string)
    ensures |CString(component)| <= |component|
  {}

  /** However the walk ends, it never asked for "." or ".." or a name too long. */
  lemma NeverAsksForDots(env: Env, t: nat, path: string)
    ensures NoDots(Walk(env, t, path).calls)
  {
    hide Descend, Components;
    if path != "" && path[0] == '/' && Components(path, 1) != [] {
      DescendHasNoDots(env, t + 2, env.root, Components(path, 1));
    }
  }

  /** A path with a piece that reads as "." or "..", to its first NUL, leads nowhere. */
  lemma DotsAreRefused(env: Env, t: nat, path: string, dots: string, rest: string)
    requires path != "" && dots in {".", ".."}
    requires dots in Split(path[1..]) || dots + ("\0" + rest) in Split(path[1..])
    ensures Walk(env, t, path).leaf == None
  {
    hide Walk, Split, Asked, CString, NonEmpty, Components;
    var w, cs := Walk(env, t, path), Components(path, 1);
    var piece := if dots in Split(path[1..]) then dots else dots + ("\0" + rest);
    if w.leaf.Some? {
      NamesInOrder(env, t, path);
      NeverAsksForDots(env, t, path);
      ComponentsAreNonEmptyPieces(path, 1);
      NonEmptyKeeps(Split(path[1..]), piece);
      if piece == dots { SeenWhole(dots); } else { NulCuts(dots, rest); }
      var i :| 0 <= i < |cs| && cs[i] == piece;
      assert CStrings(cs)[i] == dots;
      AskedIsCalled(w.calls, dots);
      assert false;
    }
  }

  lemma {:induction false} AskedIsCalled(calls: seq<Call>, name: string)
    requires name in Asked(calls)
    ensures exists c | c in calls :: c.OpenAt? && c.name == name
    decreases |calls|
  {
    if !(calls[0].OpenAt? && calls[0].name == name) {
      AskedIsCalled(calls[1..], name);
      var c :| c in calls[1..] && c.OpenAt? && c.name == name;
      assert c in calls;
    }
  }

  /** Every openat() of these calls refuses symbolic links. */
  predicate RefusesLinks(calls: seq<Call>) {
    forall c | c in calls && c.OpenAt? :: c.flags.nofollow
  }

  lemma {:induction false} DescendRefusesLinks(env: Env, t: nat, dir: Inode, cs: seq<string>)
    requires cs != []
    ensures RefusesLinks(Descend(env, t, dir, cs).calls)
    decreases |cs|
  {
    hide Usable, CString, Env.Lookup, Env.Vetted;
    var first := Enter(env, t, dir, cs[0], |cs| > 1);
    assert RefusesLinks(first.calls);
    if first.leaf.Some? && |cs| > 1 {
      hide Enter;
      DescendRefusesLinks(env, t + |first.calls|, first.leaf.value, cs[1..]);
    }
  }

  /** However the walk ends, no call it made would have followed a link. */
  lemma NeverFollows(env: Env, t: nat, path: string)
    ensures RefusesLinks(Walk(env, t, path).calls)
  {
    hide Descend, Components;
    if path != "" && path[0] == '/' && Components(path, 1) != [] {
      DescendRefusesLinks(env, t + 2, env.root, Components(path, 1));
    }
  }

  /** The entry at `k` opens something below a directory that the call just before found in order. */
  ghost predicate BaseVetted(env: Env, t: nat, calls: seq<Call>, k: nat)
    requires k < |calls| && calls[k].OpenAt?
  {
    k > 0 && calls[k - 1] == Fstat(calls[k].base) && env.Vetted(t + k - 1, calls[k].base)
  }

  lemma EnterCalls(env: Env, t: nat, dir: Inode, component: string, deeper: bool)
    ensures var w := Enter(env, t, dir, component, deeper);
            && (forall k | 0 <= k < |w.calls| && w.calls[k].OpenAt? :: k == 0 && w.calls[0].base == dir)
            && (deeper && w.leaf.Some? ==> |w.calls| == 3 && w.calls[2] == Fstat(w.leaf.value) && env.Vetted(t + 2, w.leaf.value))
  {
    hide Usable, CString, Env.Lookup, Env.Vetted;
  }

  lemma {:induction false} DescendVets(env: Env, t: nat, dir: Inode, cs: seq<string>, k: nat)
    requires cs != []
    ensures var calls := Descend(env, t, dir, cs).calls;
            k < |calls| && calls[k].OpenAt? ==> if k == 0 then calls[0].base == dir else BaseVetted(env, t, calls, k)
    decreases |cs|
  {
    hide Enter, Env.Vetted;
    var first := Enter(env, t, dir, cs[0], |cs| > 1);
    EnterCalls(env, t, dir, cs[0], |cs| > 1);
    if first.leaf.Some? && |cs| > 1 {
      var next := first.leaf.value;
      var rest := Descend(env, t + 3, next, cs[1..]).calls;
      assert Descend(env, t, dir, cs).calls == first.calls + rest;
      if k >= 3 {
        DescendVets(env, t + 3, next, cs[1..], k - 3);
        if k < 3 + |rest| && rest[k - 3].OpenAt? { VetsShift(env, t, first.calls, rest, next, k); }
      }
    }
  }

  lemma VetsShift(env: Env, t: nat, before: seq<Call>, rest: seq<Call>, dir: Inode, k: nat)
    requires before != [] && Fstat(dir) == before[|before| - 1] && env.Vetted(t + |before| - 1, dir)
    requires |before| <= k < |before| + |rest| && rest[k - |before|].OpenAt?
    requires if k == |before| then rest[0].base == dir else BaseVetted(env, t + |before|, rest, k - |before|)
    ensures BaseVetted(env, t, before + rest, k)
  {
    hide Env.Vetted;
    var calls := before + rest;
    assert calls[k] == rest[k - |before|];
    if k > |before| { assert calls[k - 1] == rest[k - 1 - |before|]; }
  }

  /** However the walk ends, nothing was ever opened below a directory not vetted by the call before. */
  lemma VettedBeforeUse(env: Env, t: nat, path: string, k: nat)
    ensures var calls := Walk(env, t, path).calls;
            k < |calls| && calls[k].OpenAt? ==> BaseVetted(env, t, calls, k)
  {
    hide Descend, Components;
    if path != "" && path[0] == '/' && !env.fails(t) && env.Vetted(t + 1, env.root) && Components(path, 1) != [] && k >= 2 {
      var rest := Descend(env, t + 2, env.root, Components(path, 1)).calls;
      var before: seq<Call> := [OpenRoot, Fstat(env.root)];
      assert Walk(env, t, path).calls == before + rest;
      DescendVets(env, t + 2, env.root, Components(path, 1), k - 2);
      if k < 2 + |rest| && rest[k - 2].OpenAt? { VetsShift(env, t, before, rest, env.root, k); }
    }
  }

  /** The names given to openat(), in order. */
  function Asked(calls: seq<Call>): seq<string> {
    if calls == [] then [] else AskedBy(calls[0]) + Asked(calls[1..])
  }

  function AskedBy(c: Call): seq<string> {
    if c.OpenAt? then [c.name] else []
  }

  lemma {:induction false} AskedJoin(a: seq<Call>, b: seq<Call>)
    ensures Asked(a + b) == Asked(a) + Asked(b)
    decreases |a|
  {
    hide AskedBy;
    var all := a + b;
    if a == [] {
      assert all == b;
    } else {
      AskedJoin(a[1..], b);
      assert all[1..] == a[1..] + b && all[0] == a[0];
      assert Asked(all) == AskedBy(a[0]) + (Asked(a[1..]) + Asked(b));
    }
  }

  lemma EnterAsks(env: Env, t: nat, dir: Inode, component: string, deeper: bool)
    ensures Asked(Enter(env, t, dir, component, deeper).calls) == if Usable(component) then [CString(component)] else []
  {
    hide Usable, CString, Env.Lookup, Env.Vetted, Asked;
    var a, b := OpenAt(dir, CString(component), FlagsFor(!deeper)), Close(dir);
    var w := Enter(env, t, dir, component, deeper);
    AskedTwo(a, b);
    AskedOne(b);
    if |w.calls| > 2 {
      var c := w.calls[2];
      AskedOne(c);
      if |w.calls| == 4 { AskedTwo(c, w.calls[3]); }
      AskedJoin([a, b], w.calls[2..]);
      assert w.calls == [a, b] + w.calls[2..];
      assert w.calls[2..] == if |w.calls| == 4 then [c, w.calls[3]] else [c];
    }
  }

  lemma AskedOne(c: Call)
    ensures Asked([c]) == AskedBy(c)
  {
    assert [c][1..] == [];
  }

  lemma AskedTwo(a: Call, b: Call)
    ensures Asked([a, b]) == AskedBy(a) + AskedBy(b)
  {
    assert [a, b][1..] == [b] && [b][1..] == [];
    assert Asked([b]) == AskedBy(b) + Asked([]);
  }

  lemma {:induction false} DescendAsks(env: Env, t: nat, dir: Inode, cs: seq<string>)
    requires cs != []
    ensures var w := Descend(env, t, dir, cs);
            Asked(w.calls) <= CStrings(cs) && (w.leaf.Some? ==> Asked(w.calls) == CStrings(cs))
    decreases |cs|
  {
    hide Usable, Enter, Asked, CStrings;
    var deeper := |cs| > 1;
    var first := Enter(env, t, dir, cs[0], deeper);
    EnterAsks(env, t, dir, cs[0], deeper);
    EnterUsable(env, t, dir, cs[0], deeper);
    CStringsStep(cs);
    if first.leaf.Some? && deeper {
      var rest := Descend(env, t + |first.calls|, first.leaf.value, cs[1..]);
      DescendAsks(env, t + |first.calls|, first.leaf.value, cs[1..]);
      AskedJoin(first.calls, rest.calls);
    }
  }

  lemma EnterUsable(env: Env, t: nat, dir: Inode, component: string, deeper: bool)
    ensures Enter(env, t, dir, component, deeper).leaf.Some? ==> Usable(component)
  {}

  lemma CStringsStep(cs: seq<string>)
    requires cs != []
    ensures CStrings(cs) == [CString(cs[0])] + CStrings(cs[1..]) && |CStrings(cs)| == |cs|
  {
    hide CString;
  }

  /** The walk asks for the components in order, each at most once, and for all of them when it succeeds. */
  lemma NamesInOrder(env: Env, t: nat, path: string)
    requires path != ""
    ensures var w, names := Walk(env, t, path), CStrings(Components(path, 1));
            Asked(w.calls) <= names && (w.leaf.Some? ==> Asked(w.calls) == names)
  {
    hide Descend, Components;
    var cs := Components(path, 1);
    if path[0] == '/' && !env.fails(t) && env.Vetted(t + 1, env.root) && cs != [] {
      DescendAsks(env, t + 2, env.root, cs);
      AskedJoin([OpenRoot, Fstat(env.root)], Descend(env, t + 2, env.root, cs).calls);
      AskedTwo(OpenRoot, Fstat(env.root));
    } else {
      AskedTwo(OpenRoot, Fstat(env.root));
      AskedJoin([OpenRoot, Fstat(env.root)], [Close(env.root)]);
    }
  }

  /** A trailing slash changes nothing: the last component is still opened as the dictionary. */
  lemma TrailingSlashIgnored(env: Env, t: nat, path: string)
    requires path != ""
    ensures Walk(env, t, path + "/") == Walk(env, t, path)
  {
    hide Components, Split, NonEmpty, Remaining, Env.Vetted;
    assert (path + "/")[0] == path[0];
    ComponentsAreNonEmptyPieces(path + "/", 1);
    ComponentsAreNonEmptyPieces(path, 1);
    assert (path + "/")[1..] == path[1..] + "/";
    SplitTrailing(path[1..]);
    EmptyPieceDropped(Split(path[1..]));
    assert Components(path + "/", 1) == Components(path, 1);
  }
}
