/**
 Scanning of header text.  A header value is a string whose characters stand for its bytes;
 a cursor is an index into it.
 */
module Text {
  /** The weight delimiters of RFC 9110: optional whitespace is SP or HTAB. */
  predicate IsOws(c: char) {
    c == ' ' || c == '\t'
  }

  predicate IsDigit(c: char) {
    '0' <= c <= '9'
  }

  /** The first position at or after `p` that does not hold optional whitespace. */
  function SkipOws(s: string, p: nat): (r: nat)
    requires p <= |s|
    ensures p <= r <= |s|
    ensures forall k | p <= k < r :: IsOws(s[k])
    ensures r < |s| ==> !IsOws(s[r])
    decreases |s| - p
  {
    if p < |s| && IsOws(s[p]) then SkipOws(s, p + 1) else p
  }

  method SkipOwsLoop(s: string, p: nat) returns (r: nat)
    requires p <= |s|
    ensures r == SkipOws(s, p)
  {
    r := p;
    while r < |s| && IsOws(s[r])
      invariant p <= r <= |s| && SkipOws(s, r) == SkipOws(s, p)
    {
      r := r + 1;
    }
  }

  /** The first position at or after `p` that holds a character of `stops`. */
  function Until(s: string, p: nat, stops: set<char>): (r: nat)
    requires p <= |s|
    ensures p <= r <= |s|
    ensures forall k | p <= k < r :: s[k] !in stops
    ensures r < |s| ==> s[r] in stops
    decreases |s| - p
  {
    if p < |s| && s[p] !in stops then Until(s, p + 1, stops) else p
  }

  /** The end of `t[..hi]` without its trailing whitespace, not going below `lo`. */
  function TrimEnd(t: string, lo: nat, hi: nat): (r: nat)
    requires lo <= hi <= |t|
    ensures lo <= r <= hi && (lo < r ==> !IsOws(t[r - 1]))
    ensures forall k | r <= k < hi :: IsOws(t[k])
    decreases hi - lo
  {
    if lo < hi && IsOws(t[hi - 1]) then TrimEnd(t, lo, hi - 1) else hi
  }

  /** ASCII-only, locale-free lower casing. */
  function ToLower(c: char): char {
    if 'A' <= c <= 'Z' then c + 32 as char else c
  }

  /** ngx_strncasecmp() over two strings of the same length: like C, it stops at a shared NUL. */
  predicate CaseEqual(a: string, b: string)
    requires |a| == |b|
  {
    a == [] ||
    (ToLower(a[0]) == ToLower(b[0]) && (a[0] == '\0' || CaseEqual(a[1..], b[1..])))
  }

  /** The name test every caller uses: equal length, then a caseless comparison. */
  predicate SameName(a: string, b: string) {
    |a| == |b| && CaseEqual(a, b)
  }

  /** The same character, or the two cases of one ASCII letter. */
  predicate SameLetter(c: char, d: char) {
    || c == d
    || ('A' <= c <= 'Z' && d as int == c as int + 32)
    || ('A' <= d <= 'Z' && c as int == d as int + 32)
  }

  /** The comparison looks at every place up to the first NUL. */
  lemma {:induction false} CaseEqualIsPointwise(a: string, b: string)
    requires |a| == |b|
    ensures CaseEqual(a, b) <==> forall k | 0 <= k < |a| && '\0' !in a[..k] :: SameLetter(a[k], b[k])
  {
    if a != [] {
      var a', b' := a[1..], b[1..];
      CaseEqualIsPointwise(a', b');
      assert ToLower(a[0]) == ToLower(b[0]) <==> SameLetter(a[0], b[0]);
      if CaseEqual(a, b) {
        forall k | 0 <= k < |a| && '\0' !in a[..k] ensures SameLetter(a[k], b[k]) {
          if k > 0 { assert a[..k] == [a[0]] + a'[..k - 1] && a[k] == a'[k - 1] && b[k] == b'[k - 1]; }
        }
      } else if SameLetter(a[0], b[0]) {
        var k :| 0 <= k < |a'| && '\0' !in a'[..k] && !SameLetter(a'[k], b'[k]);
        assert a[..k + 1] == [a[0]] + a'[..k] && a[k + 1] == a'[k] && b[k + 1] == b'[k];
      } else {
        assert a[..0] == "";
      }
    }
  }

  /** Without NULs: at every place. */
  lemma NamesAlike(a: string, b: string)
    requires '\0' !in a
    ensures SameName(a, b) <==> |a| == |b| && forall k | 0 <= k < |a| :: SameLetter(a[k], b[k])
  {
    if |a| == |b| { CaseEqualIsPointwise(a, b); }
  }

  lemma {:induction false} CaseEqualReflexive(a: string)
    ensures CaseEqual(a, a)
  {
    if a != [] { CaseEqualReflexive(a[1..]); }
  }
}
