/**
 The components of an absolute path.
 */
module StrictPaths {
  import opened Text

  const NGX_MAX_PATH: nat := 4096
  const SLASH: set<char> := {'/'}
  const NUL: set<char> := {'\0'}

  function SkipSlashes(s: string, p: nat): (r: nat)
    requires p <= |s|
    ensures p <= r <= |s| && (r < |s| ==> s[r] != '/')
    ensures forall k | p <= k < r :: s[k] == '/'
    decreases |s| - p
  {
    if p < |s| && s[p] == '/' then SkipSlashes(s, p + 1) else p
  }

  /** The components of a path from `p` on. */
  function Components(s: string, p: nat): (r: seq<string>)
    requires p <= |s|
    decreases |s| - p
  {
    var a := SkipSlashes(s, p);
    if a == |s| then []
    else var e := Until(s, a, SLASH); [s[a..e]] + Components(s, e)
  }

  /** What C makes of a component copied into a buffer. */
  function CString(s: string): string {
    s[..Until(s, 0, NUL)]
  }

  function CStrings(cs: seq<string>): seq<string> {
    seq(|cs|, i requires 0 <= i < |cs| => CString(cs[i]))
  }

  predicate Usable(component: string) {
    |component| < NGX_MAX_PATH && CString(component) != "." && CString(component) != ".."
  }

  /** The pieces between the slashes, empty ones included. */
  function Split(s: string): (r: seq<string>)
    ensures r != []
  {
    if s == "" then [""]
    else
      var rest := Split(s[1..]);
      if s[0] == '/' then [""] + rest else [[s[0]] + rest[0]] + rest[1..]
  }

  function NonEmpty(pieces: seq<string>): seq<string> {
    if pieces == [] then []
    else (if |pieces[0]| == 0 then [] else [pieces[0]]) + NonEmpty(pieces[1..])
  }

  lemma {:induction false} SplitAtSlash(s: string, e: nat)
    requires e < |s| && s[e] == '/' && '/' !in s[..e]
    ensures Split(s) == [s[..e]] + Split(s[e + 1..])
    decreases e
  {
    if e > 0 {
      assert s[1..][..e - 1] == s[1..e] && s[1..][e..] == s[e + 1..] && s[..e] == [s[0]] + s[1..e];
      assert s[..e][0] != '/';
      SplitAtSlash(s[1..], e - 1);
    }
  }

  lemma {:induction false} SplitWhole(s: string)
    requires '/' !in s
    ensures Split(s) == [s]
  {
    if s != "" {
      assert s[0] in s && forall k | 0 <= k < |s[1..]| :: s[1..][k] == s[k + 1];
      SplitWhole(s[1..]);
      assert [s[0]] + s[1..] == s;
    }
  }

  lemma ComponentsStep(s: string, p: nat)
    requires p < |s|
    ensures s[p] == '/' ==> Components(s, p) == Components(s, p + 1)
    ensures s[p] != '/' ==> var e := Until(s, p, SLASH); e > p && Components(s, p) == [s[p..e]] + Components(s, e)
  {}

  /** A piece up to the next slash stands in front of the pieces after it. */
  lemma PiecesStep(s: string, p: nat)
    requires p < |s| && s[p] != '/'
    ensures var e := Until(s, p, SLASH);
            NonEmpty(Split(s[p..])) == [s[p..e]] + if e == |s| then [] else NonEmpty(Split(s[e + 1..]))
  {
    hide Split;
    var e := Until(s, p, SLASH);
    if e == |s| {
      assert s[p..e] == s[p..];
      SplitWhole(s[p..]);
    } else {
      assert s[p..][..e - p] == s[p..e] && s[p..][e - p + 1..] == s[e + 1..];
      SplitAtSlash(s[p..], e - p);
    }
  }

  lemma SlashStep(s: string, p: nat)
    requires p < |s| && s[p] == '/'
    ensures NonEmpty(Split(s[p..])) == NonEmpty(Split(s[p + 1..]))
  {
    assert s[p..][1..] == s[p + 1..];
  }

  /** The components are exactly the non-empty pieces between slashes. */
  lemma {:induction false} ComponentsAreNonEmptyPieces(s: string, p: nat)
    requires p <= |s|
    ensures Components(s, p) == NonEmpty(Split(s[p..]))
    decreases |s| - p
  {
    hide Components, NonEmpty, Split;
    if p == |s| {
      NoPieces(s);
    } else {
      ComponentsStep(s, p);
      if s[p] == '/' {
        SlashStep(s, p);
        ComponentsAreNonEmptyPieces(s, p + 1);
      } else {
        PiecesStep(s, p);
        var e := Until(s, p, SLASH);
        if e == |s| {
          NoPieces(s);
        } else {
          ComponentsStep(s, e);
          ComponentsAreNonEmptyPieces(s, e + 1);
        }
      }
    }
  }

  lemma NoPieces(s: string)
    ensures Components(s, |s|) == [] && NonEmpty(Split(s[|s|..])) == []
  {
    assert NonEmpty([""]) == NonEmpty([""][1..]);
  }

  lemma {:induction false} EmptyPieceDropped(a: seq<string>)
    ensures NonEmpty(a + [""]) == NonEmpty(a)
  {
    var b := a + [""];
    if a == [] {
      assert b[1..] == [] && b[0] == "";
    } else {
      EmptyPieceDropped(a[1..]);
      assert b[1..] == a[1..] + [""] && b[0] == a[0];
    }
  }

  lemma {:induction false} SplitTrailing(s: string)
    ensures Split(s + "/") == Split(s) + [""]
  {
    if s != "" {
      SplitTrailing(s[1..]);
      assert (s + "/")[1..] == s[1..] + "/";
    }
  }

  /** A path is refused for naming no file exactly when it consists of slashes. */
  lemma {:induction false} OnlySlashes(s: string, p: nat)
    requires p <= |s|
    ensures Components(s, p) == [] <==> forall k | p <= k < |s| :: s[k] == '/'
    decreases |s| - p
  {}

  /** openat() sees the component itself exactly when there is no NUL in it. */
  lemma SeenWhole(component: string)
    ensures CString(component) == component <==> '\0' !in component
  {
    var n := Until(component, 0, NUL);
    if n == |component| { assert component[..n] == component; }
  }

  /** Of a component with a NUL it sees what precedes the first. */
  lemma NulCuts(head: string, rest: string)
    requires '\0' !in head
    ensures CString(head + ("\0" + rest)) == head
  {
    var t := head + ("\0" + rest);
    assert forall k | 0 <= k < |head| :: t[k] == head[k];
    assert t[|head|] == '\0';
    assert Until(t, 0, NUL) == |head|;
    assert t[..|head|] == head;
  }

  lemma {:induction false} NonEmptyKeeps(pieces: seq<string>, piece: string)
    requires piece in pieces && piece != ""
    ensures piece in NonEmpty(pieces)
    decreases |pieces|
  {
    if pieces[0] != piece { NonEmptyKeeps(pieces[1..], piece); }
  }
}
