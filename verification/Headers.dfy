/** Header lists. */
module Headers {
  import opened Options
  import opened Text

  /** A response header; a zero `hash` marks one that was removed. */
  datatype Header = Header(hash: nat, key: string, value: string)

  /** A request header field. */
  datatype Field = Field(key: string, value: string)

  /** The values of the fields called `name`, in order. */
  function ValuesOf(fields: seq<Field>, name: string): seq<string> {
    if fields == [] then []
    else (if SameName(fields[0].key, name) then [fields[0].value] else []) + ValuesOf(fields[1..], name)
  }

  /** Field by field: each contributes its value exactly when it has that name, in order. */
  lemma ValuesInOrder(f: Field, before: seq<Field>, after: seq<Field>, name: string)
    ensures ValuesOf([], name) == [] && ValuesOf([f], name) == if SameName(f.key, name) then [f.value] else []
    ensures ValuesOf(before + after, name) == ValuesOf(before, name) + ValuesOf(after, name)
  {
    hide SameName;
    ValuesJoin(before, after, name);
    assert [f][1..] == [];
  }

  lemma {:induction false} ValuesJoin(before: seq<Field>, after: seq<Field>, name: string)
    ensures ValuesOf(before + after, name) == ValuesOf(before, name) + ValuesOf(after, name)
    decreases |before|
  {
    hide SameName;
    var all := before + after;
    if before == [] {
      assert all == after;
    } else {
      ValuesJoin(before[1..], after, name);
      assert all[0] == before[0] && all[1..] == before[1..] + after;
    }
  }

  /** The first field called `name`. */
  function FirstOf(fields: seq<Field>, name: string): Option<string> {
    var v := ValuesOf(fields, name);
    if v == [] then None else Some(v[0])
  }

  method FindRequestHeader(fields: seq<Field>, name: string) returns (v: Option<string>)
    ensures v == FirstOf(fields, name)
    ensures v == None ==> forall k | 0 <= k < |fields| :: !SameName(fields[k].key, name)
    ensures v.Some? ==> exists i | 0 <= i < |fields| && fields[i].value == v.value ::
              SameName(fields[i].key, name) && forall k | 0 <= k < i :: !SameName(fields[k].key, name)
  {
    hide SameName;
    for i := 0 to |fields|
      invariant ValuesOf(fields, name) == ValuesOf(fields[i..], name)
      invariant forall k | 0 <= k < i :: !SameName(fields[k].key, name)
    {
      if SameName(fields[i].key, name) {
        return Some(fields[i].value);
      }
    }
    v := None;
  }

  // ----- Vary -----

  const ACCEPT_ENCODING := "Accept-Encoding"
  const COMMAS: set<char> := {','}

  /** `name` is among the comma-separated tokens of a Vary value from `p` on. */
  predicate TokenFrom(s: string, p: nat, name: string)
    requires p <= |s|
    decreases |s| - p
  {
    var a := SkipOws(s, p);
    a < |s| &&
    var e := Until(s, a, COMMAS);
    SameName(s[a..TrimEnd(s, a, e)], name) || (e < |s| && TokenFrom(s, e + 1, name))
  }

  predicate NamesHeader(value: string, name: string) {
    TokenFrom(value, 0, name)
  }

  predicate IsVary(h: Header) {
    h.hash != 0 && SameName(h.key, "Vary")
  }

  /** Some Vary line names `name`. */
  predicate VaryLists(headers: seq<Header>, name: string) {
    exists i | 0 <= i < |headers| :: IsVary(headers[i]) && NamesHeader(headers[i].value, name)
  }

  /** The end of the token that starts at `start`, and of its text without trailing whitespace. */
  method TokenBounds(s: string, start: nat) returns (end: nat, next: nat)
    requires start < |s|
    ensures next == Until(s, start, COMMAS) && end == TrimEnd(s, start, next)
  {
    next := start;
    while next < |s| && s[next] != ','
      invariant start <= next <= |s| && Until(s, next, COMMAS) == Until(s, start, COMMAS)
    {
      next := next + 1;
    }
    end := next;
    while end > start && (s[end - 1] == ' ' || s[end - 1] == '\t')
      invariant start <= end <= next && TrimEnd(s, start, end) == TrimEnd(s, start, next)
    {
      end := end - 1;
    }
  }

  lemma TokenStep(s: string, p: nat, name: string)
    requires p <= |s|
    ensures var a := SkipOws(s, p);
            TokenFrom(s, p, name) <==>
            a < |s| && var e := Until(s, a, COMMAS); SameName(s[a..TrimEnd(s, a, e)], name) || (e < |s| && TokenFrom(s, e + 1, name))
  {
    hide SameName, TrimEnd, Until, SkipOws;
  }

  // ----- the tokens of a Vary value, by their places -----

  /** `s[a..e]` is a token: no comma in it, no blank at its ends, and only blanks up to the commas around it. */
  ghost predicate TokenAt(s: string, a: nat, e: nat) {
    && a < e <= |s| && (forall k | a <= k < e :: s[k] != ',')
    && s[a] != ' ' && s[a] != '\t' && s[e - 1] != ' ' && s[e - 1] != '\t'
    && (exists p: nat | p <= a :: BlankFrom(s, p, a))
    && (exists n: nat | e <= n <= |s| :: BlankTo(s, e, n))
  }

  ghost predicate BlankFrom(s: string, p: nat, a: nat)
    requires p <= a <= |s|
  {
    (p == 0 || s[p - 1] == ',') && forall k | p <= k < a :: s[k] == ' ' || s[k] == '\t'
  }

  ghost predicate BlankTo(s: string, e: nat, n: nat)
    requires e <= n <= |s|
  {
    (n == |s| || s[n] == ',') && forall k | e <= k < n :: s[k] == ' ' || s[k] == '\t'
  }

  /** The token in the piece between commas that starts at `p`, if it holds one. */
  lemma PieceToken(s: string, p: nat, a: nat, e: nat, n: nat)
    requires p < |s| && (p == 0 || s[p - 1] == ',')
    requires a == SkipOws(s, p) && a < |s| && n == Until(s, a, COMMAS) && e == TrimEnd(s, a, n)
    ensures a < e ==> TokenAt(s, a, e)
    ensures forall b: nat, f: nat | TokenAt(s, b, f) && p <= b :: (b == a && f == e) || n < b
  {
    if a < e {
      assert BlankFrom(s, p, a) && BlankTo(s, e, n);
    }
    forall b: nat, f: nat | TokenAt(s, b, f) && p <= b ensures (b == a && f == e) || n < b {
      if b <= n { SameToken(s, p, a, e, n, b, f); }
    }
  }

  lemma SameToken(s: string, p: nat, a: nat, e: nat, n: nat, b: nat, f: nat)
    requires p <= a <= e <= n <= |s| && (forall k | p <= k < a :: IsOws(s[k])) && (a < |s| ==> !IsOws(s[a]))
    requires (forall k | a <= k < n :: s[k] != ',') && (n < |s| ==> s[n] == ',') && e == TrimEnd(s, a, n)
    requires TokenAt(s, b, f) && p <= b <= n
    ensures b == a && f == e
  {
    var q: nat :| q <= b && BlankFrom(s, q, b);
    var m: nat :| f <= m <= |s| && BlankTo(s, f, m);
    assert q <= p;
    assert b == a;
    assert m == n;
  }

  /** Some token from `p` on is that name. */
  ghost predicate SomeToken(s: string, p: nat, name: string) {
    exists a: nat, e: nat | p <= a && TokenAt(s, a, e) :: SameName(s[a..e], name)
  }

  /** A value names a header exactly when one of its tokens is that name. */
  lemma {:induction false} NamedByToken(s: string, p: nat, name: string)
    requires p <= |s| && name != "" && (p == 0 || s[p - 1] == ',')
    ensures TokenFrom(s, p, name) <==> SomeToken(s, p, name)
    decreases |s| - p
  {
    hide SameName, SkipOws, Until, TrimEnd, SomeToken, TokenFrom;
    TokenStep(s, p, name);
    var a := SkipOws(s, p);
    if a == |s| {
      NoTokenIn(s, p, name);
    } else {
      var n := Until(s, a, COMMAS);
      TokenOrLater(s, p, a, n, name);
      if n < |s| { NamedByToken(s, n + 1, name); } else { NoTokenIn(s, n, name); }
    }
  }

  lemma NoTokenIn(s: string, p: nat, name: string)
    requires p <= |s| && forall k | p <= k < |s| :: IsOws(s[k])
    ensures !SomeToken(s, p, name)
  {
    hide SameName;
    forall b: nat, f: nat | p <= b && TokenAt(s, b, f) ensures false {}
  }

  /** A name is that of the token at hand or of one past it. */
  lemma TokenOrLater(s: string, p: nat, a: nat, n: nat, name: string)
    requires p < |s| && (p == 0 || s[p - 1] == ',') && name != ""
    requires a == SkipOws(s, p) && a < |s| && n == Until(s, a, COMMAS)
    ensures var e := TrimEnd(s, a, n);
            && (SomeToken(s, p, name) <==> SameName(s[a..e], name) || SomeToken(s, if n < |s| then n + 1 else n, name))
  {
    hide SameName, TokenAt, SkipOws, Until, TrimEnd;
    var e := TrimEnd(s, a, n);
    PieceToken(s, p, a, e, n);
    forall b: nat, f: nat | TokenAt(s, b, f) ensures b < f <= |s| { TokenIsNotBlank(s, b, f); }
    if SameName(s[a..e], name) { NeverEmpty(s[a..e], name); }
  }

  lemma TokenIsNotBlank(s: string, a: nat, e: nat)
    requires TokenAt(s, a, e)
    ensures a < e <= |s| && !IsOws(s[a])
  {}

  lemma NeverEmpty(token: string, name: string)
    requires name != "" && SameName(token, name)
    ensures token != ""
  {}

  /** The token scan over one Vary value. */
  method ValueNames(s: string, name: string) returns (found: bool)
    ensures found == NamesHeader(s, name)
  {
    hide SameName, TrimEnd, Until, SkipOws, TokenFrom;
    var p := 0;
    TokenStep(s, |s|, name);
    while p < |s|
      invariant p <= |s| && NamesHeader(s, name) == TokenFrom(s, p, name)
      decreases |s| - p
    {
      TokenStep(s, p, name);
      p := SkipOwsLoop(s, p);
      if p >= |s| {
        return false;
      }
      var end, next := TokenBounds(s, p);
      if SameName(s[p..end], name) {
        return true;
      }
      p := if next < |s| && s[next] == ',' then next + 1 else next;
    }
    found := false;
  }

  /** Whether some Vary line of the response already names `name`. */
  method FindVary(headers: seq<Header>, name: string) returns (found: bool)
    ensures found == VaryLists(headers, name)
  {
    hide SameName, NamesHeader;
    for i := 0 to |headers|
      invariant forall k | 0 <= k < i :: !(IsVary(headers[k]) && NamesHeader(headers[k].value, name))
    {
      if headers[i].hash == 0 {
        continue;
      }
      if SameName(headers[i].key, "Vary") {
        var here := ValueNames(headers[i].value, name);
        if here {
          return true;
        }
      }
    }
    found := false;
  }

  lemma VaryAppend(headers: seq<Header>, h: Header, name: string)
    ensures VaryLists(headers + [h], name) <==> VaryLists(headers, name) || (IsVary(h) && NamesHeader(h.value, name))
  {
    hide NamesHeader, IsVary;
    var l := headers + [h];
    assert l[|headers|] == h && forall i | 0 <= i < |headers| :: l[i] == headers[i];
    if VaryLists(headers, name) {
      var i :| 0 <= i < |headers| && IsVary(headers[i]) && NamesHeader(headers[i].value, name);
      assert IsVary(l[i]);
    }
  }
}
