/**
 The independent reference parser of fuzz/fuzz_accept_encoding.c and its agreement with the walker.

 The reference is a second cursor parser, written for another shape of the grammar: it gives up
 ("unsure") on whatever it does not understand, and where it does answer, the walker must agree.
 */
module Reference {
  import opened Text
  import opened Quoted
  import opened AcceptEncoding
  import opened FieldLines

  const UNSURE := -1

  predicate IsTokenChar(c: char) {
    'A' <= c <= 'Z' || 'a' <= c <= 'z' || '0' <= c <= '9' || c == '*' || c == '-' || c == '_'
  }

  lemma UpperCase(c: char)
    ensures 'A' <= c <= 'Z' <==> c in "ABCDEFGHIJKLMNOPQRSTUVWXYZ"
  {
    if 'A' <= c <= 'Z' { assert c == "ABCDEFGHIJKLMNOPQRSTUVWXYZ"[c as int - 65]; }
  }

  lemma LowerCase(c: char)
    ensures 'a' <= c <= 'z' <==> c in "abcdefghijklmnopqrstuvwxyz"
  {
    if 'a' <= c <= 'z' { assert c == "abcdefghijklmnopqrstuvwxyz"[c as int - 97]; }
  }

  lemma DigitsAndMarks(c: char)
    ensures '0' <= c <= '9' || c == '*' || c == '-' || c == '_' <==> c in "0123456789*-_"
  {
    var all := "0123456789*-_";
    assert all[10] == '*' && all[11] == '-' && all[12] == '_';
    if '0' <= c <= '9' { assert c == all[c as int - 48]; }
  }

  /** The characters of a name, one by one. */
  lemma TokenCharacters(c: char)
    ensures IsTokenChar(c) <==> c in "ABCDEFGHIJKLMNOPQRSTUVWXYZ" || c in "abcdefghijklmnopqrstuvwxyz" || c in "0123456789*-_"
  {
    UpperCase(c);
    LowerCase(c);
    DigitsAndMarks(c);
  }

  // ----- what the reference's loops compute -----

  function TokenEnd(s: string, p: nat): (r: nat)
    requires p <= |s|
    ensures p <= r <= |s|
    ensures forall k | p <= k < r :: IsTokenChar(s[k])
    ensures r < |s| ==> !IsTokenChar(s[r])
    decreases |s| - p
  {
    if p < |s| && IsTokenChar(s[p]) then TokenEnd(s, p + 1) else p
  }

  /** Past the quoted string whose body starts at `p`; unsure about escapes and missing quotes. */
  function SimpleQuotedEnd(s: string, p: nat): (r: int)
    requires p <= |s|
    ensures r == UNSURE || p < r <= |s|
    decreases |s| - p
  {
    if p == |s| || s[p] == '\\' then UNSURE
    else if s[p] == '"' then p + 1
    else SimpleQuotedEnd(s, p + 1)
  }

  /** To the end of an element that starts with a quoted string. */
  function QuotedElementEnd(s: string, p: nat): (r: int)
    requires p <= |s|
    ensures r == UNSURE || p <= r <= |s|
    decreases |s| - p
  {
    if p == |s| || s[p] == ',' then p
    else if s[p] != '"' then QuotedElementEnd(s, p + 1)
    else
      var r := SimpleQuotedEnd(s, p + 1);
      if r == UNSURE then UNSURE else QuotedElementEnd(s, r)
  }

  /** To the end of an element that matches nothing; unsure about quotes. */
  function JunkEnd(s: string, p: nat): (r: int)
    requires p <= |s|
    ensures r == UNSURE || p <= r <= |s|
    decreases |s| - p
  {
    if p == |s| || s[p] == ',' then p
    else if s[p] == '"' then UNSURE
    else JunkEnd(s, p + 1)
  }

  datatype Number = Number(q: int, next: nat)

  function Fraction(s: string, p: nat, q: int, scale: int): (r: Number)
    requires p <= |s|
    ensures p <= r.next <= |s|
    decreases |s| - p
  {
    if p < |s| && IsDigit(s[p]) && scale > 0
    then Fraction(s, p + 1, q + (s[p] as int - '0' as int) * scale, scale / 10)
    else Number(q, p)
  }

  function Zeros(s: string, p: nat, k: int): (r: nat)
    requires p <= |s|
    ensures p <= r <= |s|
    decreases |s| - p
  {
    if p < |s| && s[p] == '0' && k < 3 then Zeros(s, p + 1, k + 1) else p
  }

  function RefQvalue(s: string, p: nat): (r: Number)
    requires p <= |s|
    ensures p <= r.next <= |s|
  {
    if p < |s| && s[p] == '0' then
      if p + 1 < |s| && s[p + 1] == '.' then Fraction(s, p + 2, 0, 100) else Number(0, p + 1)
    else if p < |s| && s[p] == '1' then
      Number(1000, if p + 1 < |s| && s[p + 1] == '.' then Zeros(s, p + 2, 0) else p + 1)
    else Number(UNSURE, p)
  }

  const REF_PARAM_STOPS: set<char> := {'=', ';', ',', ' ', '\t', '"'}
  const REF_VALUE_STOPS: set<char> := {';', ',', ' ', '\t', '"'}

  /** A parameter value other than a weight: a simple quoted string or a token. */
  function RefValueEnd(s: string, p: nat): (r: int)
    requires p <= |s|
    ensures r == UNSURE || p <= r <= |s|
  {
    if p < |s| && s[p] == '"' then SimpleQuotedEnd(s, p + 1) else Until(s, p, REF_VALUE_STOPS)
  }

  datatype RefResult = Unsure | Sure(matches: bool, q: int, next: nat)

  function RefParams(s: string, p: nat, q: int, seen: bool): (r: RefResult)
    requires p <= |s|
    ensures r.Sure? ==> p <= r.next <= |s|
    decreases |s| - p, 0
  {
    if p == |s| || s[p] != ';' then Sure(true, q, p) else
      var start := SkipOws(s, p + 1);
      var stop := Until(s, start, REF_PARAM_STOPS);
      if stop == start then
        var j := JunkEnd(s, stop);
        if j == UNSURE then Unsure else Sure(false, q, j)
      else RefAfterName(s, stop, IsQ(s[start..stop]), q, seen)
  }

  function RefAfterName(s: string, p: nat, isQ: bool, q: int, seen: bool): (r: RefResult)
    requires p <= |s|
    ensures r.Sure? ==> p <= r.next <= |s|
    decreases |s| - p, 2
  {
    var eq := SkipOws(s, p);
    if eq == |s| || s[eq] != '=' then
      if isQ then Unsure
      else if eq == |s| || s[eq] != ';' then Sure(true, q, eq)
      else RefParams(s, eq, q, seen)
    else
      var v := SkipOws(s, eq + 1);
      if isQ then
        var n := RefQvalue(s, v);
        if seen || n.q == UNSURE then Unsure else RefNext(s, n.next, n.q, true)
      else
        var w := RefValueEnd(s, v);
        if w == UNSURE then Unsure else RefNext(s, w, q, seen)
  }

  function RefNext(s: string, p: nat, q: int, seen: bool): (r: RefResult)
    requires p <= |s|
    ensures r.Sure? ==> p <= r.next <= |s|
    decreases |s| - p, 1
  {
    var n := SkipOws(s, p);
    if n == |s| || s[n] == ',' then Sure(true, q, n)
    else if s[n] == ';' then RefParams(s, n, q, seen)
    else Unsure
  }

  /** One element whose first character is at `p`. */
  datatype RefElement = Nothing | Element(form: Form, q: int, next: nat)

  predicate IsBr(name: string) {
    |name| == 2 && (name[0] == 'b' || name[0] == 'B') && (name[1] == 'r' || name[1] == 'R')
  }

  function RefForm(name: string): Form {
    if IsBr(name) then Explicit else if name == "*" then Star else Neither
  }

  function RefElementAt(s: string, p: nat): (r: RefElement)
    requires p < |s|
    ensures r.Element? ==> p <= r.next <= |s|
  {
    if s[p] == '"' then
      var j := QuotedElementEnd(s, p);
      if j == UNSURE then Nothing else Element(Neither, 1000, j)
    else
      var stop := TokenEnd(s, p);
      var m := SkipOws(s, stop);
      if stop == p then Nothing
      else if m < |s| && s[m] !in VALUE_STOPS then
        var j := JunkEnd(s, m);
        if j == UNSURE then Nothing else Element(Neither, 1000, j)
      else
        var r := RefParams(s, m, 1000, false);
        if r.Unsure? || (r.next < |s| && s[r.next] != ',') then Nothing
        else Element(if r.matches then RefForm(s[p..stop]) else Neither, r.q, r.next)
  }

  /** The weights the reference gathers, unless it gives up. */
  datatype RefOutcome = GaveUp | Gathered(w: Weights)

  function RefApply(w: Weights, form: Form, q: int): Weights {
    match form
    case Explicit => w.(explicit := q)
    case Star => w.(star := q)
    case Neither => w
  }

  function RefFold(s: string, p: nat, w: Weights): RefOutcome
    requires p <= |s|
    decreases |s| - p
  {
    if p == |s| then Gathered(w)
    else if IsOws(s[p]) || s[p] == ',' then RefFold(s, p + 1, w)
    else
      var e := RefElementAt(s, p);
      if e.Nothing? then GaveUp
      else
        if e.next < |s| then RefFold(s, e.next + 1, RefApply(w, e.form, e.q)) else Gathered(RefApply(w, e.form, e.q))
  }

  /** 1 accept, 0 decline, -1 unsure. */
  function RefVerdict(s: string): int {
    match RefFold(s, 0, NONE)
    case GaveUp => UNSURE
    case Gathered(w) =>
      if w.explicit >= 0 then (if w.explicit > 0 then 1 else 0)
      else if w.star > 0 then 1 else 0
  }

  // ----- agreement with the walker -----

  lemma {:induction false} SimpleQuotedAgrees(s: string, i: nat, stops: set<char>)
    requires i <= |s| && SimpleQuotedEnd(s, i) != UNSURE
    ensures Cut(s, i, InQuotes, stops) == Cut(s, SimpleQuotedEnd(s, i), Plain, stops)
    ensures Run(s, i, SimpleQuotedEnd(s, i), InQuotes) == Plain
    decreases |s| - i
  {
    if s[i] != '"' { SimpleQuotedAgrees(s, i + 1, stops); }
  }

  lemma {:induction false} QuotedElementAgrees(s: string, p: nat)
    requires p <= |s| && QuotedElementEnd(s, p) != UNSURE
    ensures QuotedElementEnd(s, p) == ElementEnd(s, p)
    decreases |s| - p
  {
    if p < |s| && s[p] != ',' {
      if s[p] == '"' {
        SimpleQuotedAgrees(s, p + 1, COMMA);
        QuotedElementAgrees(s, SimpleQuotedEnd(s, p + 1));
      } else {
        QuotedElementAgrees(s, p + 1);
      }
    }
  }

  lemma {:induction false} JunkAgrees(s: string, p: nat)
    requires p <= |s| && JunkEnd(s, p) != UNSURE
    ensures JunkEnd(s, p) == ElementEnd(s, p)
    decreases |s| - p
  {
    if p < |s| && s[p] != ',' { JunkAgrees(s, p + 1); }
  }

  /** Where the reference reads a weight and then a delimiter, the text between is that qvalue. */
  lemma QvalueAgrees(s: string, v: nat)
    requires v <= |s| && RefQvalue(s, v).q != UNSURE
    requires var e := RefQvalue(s, v).next; e == |s| || s[e] in QVALUE_STOPS
    ensures var n := RefQvalue(s, v);
            Until(s, v, QVALUE_STOPS) == n.next && IsQvalue(s[v..n.next]) && Milli(s[v..n.next]) == n.q
  {
    var n := RefQvalue(s, v);
    var t := s[v..n.next];
    if s[v] == '0' && v + 1 < |s| && s[v + 1] == '.' {
      FractionShape(s, v + 2, 0, 100, 0);
    } else if s[v] == '1' && v + 1 < |s| && s[v + 1] == '.' {
      ZerosShape(s, v + 2, 0);
    }
    assert forall k | v <= k < n.next :: s[k] == t[k - v];
  }

  function PowerOfTen(k: nat): int {
    match k
    case 0 => 100
    case 1 => 10
    case 2 => 1
    case _ => 0
  }

  lemma {:induction false} FractionShape(s: string, p: nat, q: int, scale: int, k: nat)
    requires k <= p <= |s| && scale == PowerOfTen(k) && k <= 3
    ensures var n := Fraction(s, p, q, scale);
            && n.next - p <= 3 - k && (forall i | p <= i < n.next :: IsDigit(s[i]))
            && n.q == q + (if k <= 0 && p - k < n.next then 100 * DigitOf(s, p - k) else 0)
                        + (if k <= 1 && p - k + 1 < n.next then 10 * DigitOf(s, p - k + 1) else 0)
                        + (if k <= 2 && p - k + 2 < n.next then DigitOf(s, p - k + 2) else 0)
    decreases |s| - p
  {
    if p < |s| && IsDigit(s[p]) && scale > 0 {
      FractionShape(s, p + 1, q + (s[p] as int - '0' as int) * scale, scale / 10, k + 1);
    }
  }

  function DigitOf(s: string, p: nat): int {
    if p < |s| && IsDigit(s[p]) then s[p] as int - '0' as int else 0
  }

  lemma {:induction false} ZerosShape(s: string, p: nat, k: int)
    requires p <= |s| && 0 <= k <= 3
    ensures Zeros(s, p, k) - p <= 3 - k && forall i | p <= i < Zeros(s, p, k) :: s[i] == '0'
    decreases |s| - p
  {
    if p < |s| && s[p] == '0' && k < 3 { ZerosShape(s, p + 1, k + 1); }
  }

  /** The reference's answer stands only if it stopped at the end of an element. */
  predicate Confident(s: string, r: RefResult) {
    r.Sure? && r.next <= |s| && (r.next == |s| || s[r.next] == ',')
  }

  /** The reference has read the parameter `x` just as the evaluator does, and goes on from there. */
  predicate Continues(s: string, x: Param, q: int, seen: bool, r: RefResult) {
    match x
    case Bad(_) => false
    case Weight(_, q', next) => !seen && next <= |s| && r == RefParams(s, next, q', true)
    case Other(_, next, open) => !open && next <= |s| && r == RefParams(s, next, q, seen)
  }

  lemma NextIsParams(s: string, p: nat, q: int, seen: bool)
    requires p <= |s| && RefNext(s, p, q, seen).Sure?
    ensures AtDelimiter(s, SkipOws(s, p)) && RefNext(s, p, q, seen) == RefParams(s, SkipOws(s, p), q, seen)
  {}

  lemma QAgrees(s: string, v: nat, q: int)
    requires v <= |s| && RefQvalue(s, v).q != UNSURE
    requires Confident(s, RefNext(s, RefQvalue(s, v).next, RefQvalue(s, v).q, true))
    ensures Continues(s, QvalueAt(s, v), q, false, RefNext(s, RefQvalue(s, v).next, RefQvalue(s, v).q, true))
  {
    var n := RefQvalue(s, v);
    NextIsParams(s, n.next, n.q, true);
    hide RefParams, RefQvalue, RefNext, Until, IsQvalue, Milli;
    QvalueAgrees(s, v);
  }

  lemma ValueAgrees(s: string, v: nat, q: int, seen: bool)
    requires v <= |s| && RefValueEnd(s, v) != UNSURE && Confident(s, RefNext(s, RefValueEnd(s, v), q, seen))
    ensures Continues(s, ValueAt(s, v, false), q, seen, RefNext(s, RefValueEnd(s, v), q, seen))
  {
    var w := RefValueEnd(s, v);
    NextIsParams(s, w, q, seen);
    hide RefParams, RefNext, Until, SkipOws, SimpleQuotedEnd;
    var n := SkipOws(s, w);
    PlainStretch(s, w, n, VALUE_STOPS);
    CutAtStop(s, n);
    if v < |s| && s[v] == '"' {
      SimpleQuotedAgrees(s, v + 1, VALUE_STOPS);
      QuoteOpens(s, v, n);
      RunSplit(s, v + 1, w, n, InQuotes);
    } else {
      PlainStretch(s, v, w, VALUE_STOPS);
      RunSplit(s, v, w, n, Plain);
    }
  }

  lemma CutAtStop(s: string, n: nat)
    requires n <= |s| && AtDelimiter(s, n)
    ensures Cut(s, n, Plain, VALUE_STOPS) == n
  {}

  lemma QuoteOpens(s: string, v: nat, n: nat)
    requires v < n <= |s| && s[v] == '"'
    ensures Cut(s, v, Plain, VALUE_STOPS) == Cut(s, v + 1, InQuotes, VALUE_STOPS)
    ensures Run(s, v, n, Plain) == Run(s, v + 1, n, InQuotes)
  {}

  lemma AfterNameAgrees(s: string, p: nat, isQ: bool, q: int, seen: bool)
    requires p <= |s| && Confident(s, RefAfterName(s, p, isQ, q, seen))
    ensures Continues(s, AfterName(s, p, isQ, false), q, seen, RefAfterName(s, p, isQ, q, seen))
  {
    hide SkipOws, RefQvalue, RefValueEnd, QvalueAt, ValueAt, RefNext;
    var eq := SkipOws(s, p);
    if eq < |s| && s[eq] == '=' {
      hide RefParams;
      if isQ { QAgrees(s, SkipOws(s, eq + 1), q); } else { ValueAgrees(s, SkipOws(s, eq + 1), q, seen); }
    }
  }

  /** The two parsers find the same parameter name, unless the reference gives up on a quote. */
  lemma NameAgrees(s: string, p: nat, q: int, seen: bool)
    requires p < |s| && s[p] == ';' && Confident(s, RefParams(s, p, q, seen))
    ensures var start := SkipOws(s, p + 1);
            Until(s, start, REF_PARAM_STOPS) == Until(s, start, PARAM_NAME_STOPS)
            && '"' !in s[start..Until(s, start, PARAM_NAME_STOPS)]
  {
    hide Until, RefNext, RefQvalue, RefValueEnd;
    var start := SkipOws(s, p + 1);
    var stop := Until(s, start, REF_PARAM_STOPS);
    if stop < |s| && s[stop] == '"' {
      assert false;
    }
    assert stop == Until(s, start, PARAM_NAME_STOPS);
  }

  lemma AfterNameInElement(s: string, p: nat, isQ: bool)
    requires p <= |s| && !AfterName(s, p, isQ, false).Bad?
    ensures ElementEnd(s, AfterName(s, p, isQ, false).next) == ElementEnd(s, p)
  {
    hide SkipOws, Until, Cut, IsQvalue, Milli;
    var eq := SkipOws(s, p);
    SameElement(s, p, eq);
    if eq < |s| && s[eq] == '=' {
      var v := SkipOws(s, eq + 1);
      SameElement(s, eq, v);
      if isQ {
        var w := Until(s, v, QVALUE_STOPS);
        QvalueUnquoted(s[v..w]);
        forall k | v <= k < w ensures s[k] != '"' { assert s[k] == s[v..w][k - v]; }
        SameElement(s, v, SkipOws(s, w));
      } else {
        SameElementPastValue(s, v, Plain);
      }
    }
  }

  /** One parameter: either the element is dropped, or both parsers go on after it. */
  lemma ParamAgrees(s: string, p: nat, q: int, seen: bool)
    requires p < |s| && s[p] == ';' && Confident(s, RefParams(s, p, q, seen))
    ensures var x, r := ParamAt(s, p), RefParams(s, p, q, seen);
            if x.Bad? then !r.matches && r.q == q && r.next == ElementEnd(s, p)
            else Continues(s, x, q, seen, r) && ElementEnd(s, x.next) == ElementEnd(s, p)
  {
    NameAgrees(s, p, q, seen);
    hide SkipOws, Until, AfterName, RefAfterName, ElementEnd;
    var start := SkipOws(s, p + 1);
    var stop := Until(s, start, PARAM_NAME_STOPS);
    var isQ := IsQ(s[start..stop]);
    assert forall k | start <= k < stop :: s[k] == s[start..stop][k - start];
    SameElement(s, p, stop);
    if stop == start {
      JunkAgrees(s, stop);
    } else {
      AfterNameAgrees(s, stop, isQ, q, seen);
      AfterNameInElement(s, stop, isQ);
    }
  }

  lemma {:induction false} ParamsAgree(s: string, p: nat, q: int, seen: bool)
    requires p <= |s| && 0 <= q <= 1000 && Confident(s, RefParams(s, p, q, seen))
    ensures var r := RefParams(s, p, q, seen);
            && Params(s, p, q, seen).q == (if r.matches then r.q else MALFORMED)
            && (p < |s| && s[p] == ';' ==> r.next == ElementEnd(s, p))
            && 0 <= r.q <= 1000
    decreases |s| - p
  {
    hide ParamAt, ElementEnd;
    if p < |s| && s[p] == ';' {
      ParamAgrees(s, p, q, seen);
      var x := ParamAt(s, p);
      if !x.Bad? {
        hide RefAfterName, JunkEnd;
        ParamsAgree(s, x.next, if x.Weight? then x.q else q, seen || x.Weight?);
        if x.next == |s| || s[x.next] != ';' { EndOfElement(s, x.next); }
      }
    }
  }

  lemma EndOfElement(s: string, n: nat)
    requires n <= |s|
    ensures n == |s| || s[n] == ',' ==> ElementEnd(s, n) == n
  {}

  // ----- elements -----

  lemma BrName(name: string)
    ensures SameName(name, "br") <==> IsBr(name)
  {
    if |name| == 2 {
      assert CaseEqual(name[1..], "r") <==> name[1] == 'r' || name[1] == 'R' by {
        assert "br"[1..] == "r" && name[1..][0] == name[1];
        CaseOfOne(name[1..], 'r');
      }
      assert "br"[1..] == "r";
    }
  }

  lemma CaseOfOne(a: string, c: char)
    requires |a| == 1 && 'a' <= c <= 'z'
    ensures CaseEqual(a, [c]) <==> ToLower(a[0]) == c
  {}

  lemma FormAgrees(name: string)
    ensures FormOf(name, "br") == RefForm(name)
    ensures (exists k | 0 <= k < |name| :: !IsTokenChar(name[k])) ==> RefForm(name) == Neither
  {
    BrName(name);
  }

  /** An element whose name goes on with something that is no token character. */
  lemma OddNameAgrees(s: string, p: nat)
    requires p < |s| && var stop := TokenEnd(s, p); stop < |s| && s[stop] !in NAME_STOPS
    ensures Judge(s, p, "br").form == Neither
  {
    hide Weigh, IsTokenChar, SkipOws, FormOf, RefForm, Until;
    var stop, name := TokenEnd(s, p), s[p..Until(s, p, NAME_STOPS)];
    assert stop < Until(s, p, NAME_STOPS) by { TokenCharsAreNoStops(); }
    assert name[stop - p] == s[stop];
    FormAgrees(name);
  }

  lemma TokenCharsAreNoStops()
    ensures forall c :: IsTokenChar(c) ==> c !in NAME_STOPS
  {}

  lemma NamedElementAgrees(s: string, p: nat, w: Weights)
    requires p < |s| && s[p] != '"' && !IsOws(s[p]) && s[p] != ',' && RefElementAt(s, p).Element?
    requires var stop := TokenEnd(s, p); stop == |s| || s[stop] in NAME_STOPS
    ensures var e := RefElementAt(s, p);
            e.next == ElementEnd(s, p) && Apply(w, Judge(s, p, "br")) == RefApply(w, e.form, e.q)
  {
    hide Until, SkipOws, RefParams, Params, FormOf, RefForm, ElementEnd, JunkEnd;
    var stop := TokenEnd(s, p);
    TokenCharsAreNoStops();
    assert stop == Until(s, p, NAME_STOPS);
    var m := SkipOws(s, stop);
    forall k | p <= k < m ensures s[k] != '"' && s[k] != ',' {
      if k < stop { assert IsTokenChar(s[k]); }
    }
    SameElement(s, p, m);
    FormAgrees(s[p..stop]);
    if m < |s| && s[m] !in VALUE_STOPS {
      JunkAgrees(s, m);
    } else {
      ParamsAgree(s, m, 1000, false);
      if m == |s| || s[m] != ';' { NoParams(s, m); }
    }
  }

  lemma NoParams(s: string, m: nat)
    requires m <= |s| && (m == |s| || s[m] == ',')
    ensures RefParams(s, m, 1000, false) == Sure(true, 1000, m) && ElementEnd(s, m) == m
  {}

  lemma ElementAgrees(s: string, p: nat, w: Weights)
    requires p < |s| && !IsOws(s[p]) && s[p] != ',' && RefElementAt(s, p).Element?
    ensures var e := RefElementAt(s, p);
            e.next == ElementEnd(s, p) && Apply(w, Judge(s, p, "br")) == RefApply(w, e.form, e.q)
  {
    if s[p] == '"' {
      hide Weigh;
      QuotedElementAgrees(s, p);
    } else {
      var stop := TokenEnd(s, p);
      if stop < |s| && s[stop] !in NAME_STOPS {
        hide Judge, JunkEnd, ElementEnd;
        OddNameAgrees(s, p);
        JunkAgrees(s, stop);
        assert forall k | p <= k < stop :: IsTokenChar(s[k]);
        SameElement(s, p, stop);
      } else {
        hide Judge, RefElementAt;
        NamedElementAgrees(s, p, w);
      }
    }
  }

  lemma {:induction false} FoldAgrees(s: string, p: nat, w: Weights)
    requires p <= |s| && RefFold(s, p, w).Gathered?
    ensures Fold(s, p, "br", w) == RefFold(s, p, w).w
    decreases |s| - p
  {
    hide Judge, RefElementAt, Apply, RefApply, Fold;
    if p == |s| {
      FoldAtEnd(s, "br", w);
    } else if IsOws(s[p]) || s[p] == ',' {
      FoldSkipsBlank(s, p, "br", w);
      FoldAgrees(s, p + 1, w);
    } else {
      ElementAgrees(s, p, w);
      FoldFirst(s, p, "br", w);
      var e := RefElementAt(s, p);
      var w' := RefApply(w, e.form, e.q);
      if e.next < |s| {
        EndsWithComma(s, p);
        FoldSkipsBlank(s, e.next, "br", w');
        FoldAgrees(s, e.next + 1, w');
      } else {
        FoldAtEnd(s, "br", w');
      }
    }
  }

  lemma EndsWithComma(s: string, p: nat)
    requires p <= |s|
    ensures ElementEnd(s, p) < |s| ==> s[ElementEnd(s, p)] == ','
  {}

  /**
   Two independently written parsers agree: wherever the reference is confident, the walker's
   weight for br is positive exactly when the reference accepts.
   */
  lemma ReferenceAgrees(s: string)
    requires RefVerdict(s) != UNSURE
    ensures RefVerdict(s) == 1 <==> CodingWeightOf(s, "br", true) > 0
  {
    hide RefFold, Fold;
    FoldAgrees(s, 0, NONE);
  }

  /** The reference does answer: on every list of bare tokens, for a start. */
  lemma {:induction false} ConfidentOnBareTokens(s: string, p: nat, w: Weights)
    requires p <= |s| && forall k | p <= k < |s| :: IsTokenChar(s[k]) || IsOws(s[k]) || s[k] == ','
    ensures RefFold(s, p, w).Gathered?
    decreases |s| - p
  {
    hide RefForm;
    if p < |s| {
      if IsOws(s[p]) || s[p] == ',' {
        ConfidentOnBareTokens(s, p + 1, w);
      } else {
        BareToken(s, p);
        var e := RefElementAt(s, p);
        hide RefElementAt;
        if e.Element? && e.next < |s| { ConfidentOnBareTokens(s, e.next + 1, RefApply(w, e.form, e.q)); }
      }
    }
  }

  lemma BareToken(s: string, p: nat)
    requires p < |s| && (forall k | p <= k < |s| :: IsTokenChar(s[k]) || IsOws(s[k]) || s[k] == ',')
    requires !IsOws(s[p]) && s[p] != ','
    ensures RefElementAt(s, p).Element?
  {
    var m := SkipOws(s, TokenEnd(s, p));
    if m < |s| {
      NoQuotesInBareTokens(s, m);
    }
  }

  lemma {:induction false} NoQuotesInBareTokens(s: string, p: nat)
    requires p <= |s| && (forall k | p <= k < |s| :: IsTokenChar(s[k]) || IsOws(s[k]) || s[k] == ',')
    ensures JunkEnd(s, p) != UNSURE
    decreases |s| - p
  {
    if p < |s| && s[p] != ',' { NoQuotesInBareTokens(s, p + 1); }
  }

  // ----- the reference's loops -----

  method SkipSimpleQuoted(s: string, p: nat) returns (r: int)
    requires p <= |s|
    ensures r == SimpleQuotedEnd(s, p)
  {
    var i := p;
    while i < |s| && s[i] != '"'
      invariant p <= i <= |s| && SimpleQuotedEnd(s, i) == SimpleQuotedEnd(s, p)
    {
      if s[i] == '\\' {
        return UNSURE;
      }
      i := i + 1;
    }
    return if i >= |s| then UNSURE else i + 1;
  }

  method SkipQuotedElement(s: string, p: nat) returns (r: int)
    requires p <= |s|
    ensures r == QuotedElementEnd(s, p)
  {
    var i := p;
    while i < |s| && s[i] != ','
      invariant p <= i <= |s| && QuotedElementEnd(s, i) == QuotedElementEnd(s, p)
    {
      if s[i] == '"' {
        var j := SkipSimpleQuoted(s, i + 1);
        if j == UNSURE {
          return UNSURE;
        }
        i := j;
      } else {
        i := i + 1;
      }
    }
    return i;
  }

  method SkipJunk(s: string, p: nat) returns (r: int)
    requires p <= |s|
    ensures r == JunkEnd(s, p)
  {
    var i := p;
    while i < |s| && s[i] != ','
      invariant p <= i <= |s| && JunkEnd(s, i) == JunkEnd(s, p)
    {
      if s[i] == '"' {
        return UNSURE;
      }
      i := i + 1;
    }
    return i;
  }

  method ReadRefQvalue(s: string, p: nat) returns (q: int, r: nat)
    requires p <= |s|
    ensures Number(q, r) == RefQvalue(s, p)
  {
    q, r := UNSURE, p;
    if r >= |s| {
      return;
    }
    if s[r] == '0' {
      var scale := 100;
      q, r := 0, r + 1;
      if r < |s| && s[r] == '.' {
        r := r + 1;
        while r < |s| && '0' <= s[r] <= '9' && scale > 0
          invariant p <= r <= |s| && Fraction(s, r, q, scale) == RefQvalue(s, p)
        {
          q := q + (s[r] as int - '0' as int) * scale;
          scale := scale / 10;
          r := r + 1;
        }
      }
    } else if s[r] == '1' {
      var k := 0;
      q, r := 1000, r + 1;
      if r < |s| && s[r] == '.' {
        r := r + 1;
        while r < |s| && s[r] == '0' && k < 3
          invariant p <= r <= |s| && Number(1000, Zeros(s, r, k)) == RefQvalue(s, p)
        {
          r, k := r + 1, k + 1;
        }
      }
    }
  }

  /** The position of the first of `stops` at or after `p`. */
  method ScanTo(s: string, p: nat, stops: set<char>) returns (r: nat)
    requires p <= |s|
    ensures r == Until(s, p, stops)
  {
    r := p;
    while r < |s| && s[r] !in stops
      invariant p <= r <= |s| && Until(s, r, stops) == Until(s, p, stops)
    {
      r := r + 1;
    }
  }

  /** A parameter's value and the whitespace after it; the weight so far goes through `q`. */
  method ReadRefValue(s: string, p: nat, isQ: bool, q: int, seen: bool)
    returns (sure: bool, q': int, seen': bool, r: nat)
    requires p <= |s|
    ensures p <= r <= |s|
    ensures var n, w := RefQvalue(s, p), RefValueEnd(s, p);
            if isQ then
              && (sure <==> !seen && n.q != UNSURE && AtDelimiter(s, SkipOws(s, n.next)))
              && (sure ==> q' == n.q && seen' && r == SkipOws(s, n.next))
            else
              && (sure <==> w != UNSURE && AtDelimiter(s, SkipOws(s, w)))
              && (sure ==> q' == q && seen' == seen && r == SkipOws(s, w))
  {
    hide RefQvalue, SimpleQuotedEnd, Until, SkipOws;
    q', seen', r := q, seen, p;
    if isQ {
      if seen {
        return false, q', seen', r;
      }
      seen' := true;
      q', r := ReadRefQvalue(s, p);
      if q' == UNSURE {
        return false, q', seen', r;
      }
    } else if p < |s| && s[p] == '"' {
      var j := SkipSimpleQuoted(s, p + 1);
      if j == UNSURE {
        return false, q', seen', r;
      }
      r := j;
    } else {
      r := ScanTo(s, p, REF_VALUE_STOPS);
    }
    r := SkipOwsLoop(s, r);
    sure := r == |s| || s[r] == ';' || s[r] == ',';
  }

  lemma NextSteps(s: string, p: nat, q: int, seen: bool)
    requires p <= |s|
    ensures RefNext(s, p, q, seen) ==
            if AtDelimiter(s, SkipOws(s, p)) then RefParams(s, SkipOws(s, p), q, seen) else Unsure
  {}

  /** One turn of the parameter loop, from the end of the parameter's name. */
  lemma AfterNameSteps(s: string, p: nat, isQ: bool, q: int, seen: bool)
    requires p <= |s|
    ensures var eq := SkipOws(s, p);
            RefAfterName(s, p, isQ, q, seen) ==
            if eq == |s| || s[eq] != '=' then (if isQ then Unsure else RefParams(s, eq, q, seen))
            else
              var v := SkipOws(s, eq + 1);
              var n, w := RefQvalue(s, v), RefValueEnd(s, v);
              if isQ then
                if !seen && n.q != UNSURE && AtDelimiter(s, SkipOws(s, n.next))
                then RefParams(s, SkipOws(s, n.next), n.q, true) else Unsure
              else
                if w != UNSURE && AtDelimiter(s, SkipOws(s, w)) then RefParams(s, SkipOws(s, w), q, seen) else Unsure
  {
    hide RefQvalue, RefValueEnd, SkipOws;
    var eq := SkipOws(s, p);
    if eq < |s| && s[eq] == '=' {
      var v := SkipOws(s, eq + 1);
      var n, w := RefQvalue(s, v), RefValueEnd(s, v);
      NextSteps(s, n.next, n.q, true);
      if w != UNSURE { NextSteps(s, w, q, seen); }
      hide RefNext;
    }
  }

  lemma ParamSteps(s: string, p: nat, q: int, seen: bool)
    requires p < |s| && s[p] == ';'
    ensures var start := SkipOws(s, p + 1);
            var stop := Until(s, start, REF_PARAM_STOPS);
            RefParams(s, p, q, seen) ==
            if stop == start then (if JunkEnd(s, stop) == UNSURE then Unsure else Sure(false, q, JunkEnd(s, stop)))
            else RefAfterName(s, stop, IsQ(s[start..stop]), q, seen)
  {}

  /** One turn of the reference's parameter loop: an answer, or the state to go on with. */
  method ReadRefParam(s: string, p: nat, q: int, seen: bool)
    returns (done: bool, answer: RefResult, q': int, seen': bool, r: nat)
    requires p < |s| && s[p] == ';'
    ensures p < r <= |s|
    ensures RefParams(s, p, q, seen) == if done then answer else RefParams(s, r, q', seen')
  {
    hide RefValueEnd, RefQvalue, SkipOws, Until, JunkEnd, RefAfterName, RefParams;
    ParamSteps(s, p, q, seen);
    q', seen', done, answer := q, seen, true, Unsure;
    var start := SkipOwsLoop(s, p + 1);
    var stop := ScanTo(s, start, REF_PARAM_STOPS);
    r := stop;
    if stop == start {
      var j := SkipJunk(s, stop);
      if j != UNSURE {
        answer := Sure(false, q, j);
      }
      return;
    }
    var isQ := stop - start == 1 && (s[start] == 'q' || s[start] == 'Q');
    IsQByPosition(s, start, stop);
    AfterNameSteps(s, stop, isQ, q, seen);
    r := SkipOwsLoop(s, stop);
    if r >= |s| || s[r] != '=' {
      done := isQ;
    } else {
      var v := SkipOwsLoop(s, r + 1);
      var sure;
      sure, q', seen', r := ReadRefValue(s, v, isQ, q, seen);
      done := !sure;
    }
  }

  /** The reference's parameter loop. */
  method ReadRefParams(s: string, p: nat) returns (r: RefResult)
    requires p <= |s|
    ensures r == RefParams(s, p, 1000, false)
  {
    hide RefAfterName, SkipOws, Until, JunkEnd;
    var i, q, seen := p, 1000, false;
    while i < |s| && s[i] == ';'
      invariant p <= i <= |s| && RefParams(s, i, q, seen) == RefParams(s, p, 1000, false)
      decreases |s| - i
    {
      var done, answer;
      done, answer, q, seen, i := ReadRefParam(s, i, q, seen);
      if done {
        return answer;
      }
    }
    return Sure(true, q, i);
  }

  /** One element; `sure` is false where the reference gives up. */
  method ReadRefElement(s: string, p: nat) returns (r: RefElement)
    requires p < |s|
    ensures r == RefElementAt(s, p)
  {
    hide RefParams, QuotedElementEnd, JunkEnd, SkipOws;
    if s[p] == '"' {
      var j := SkipQuotedElement(s, p);
      return if j == UNSURE then Nothing else Element(Neither, 1000, j);
    }
    var i := p;
    while i < |s| && IsTokenChar(s[i])
      invariant p <= i <= |s| && TokenEnd(s, i) == TokenEnd(s, p)
    {
      i := i + 1;
    }
    var stop := i;
    if stop == p {
      return Nothing;
    }
    var isStar := stop - p == 1 && s[p] == '*';
    assert isStar == (s[p..stop] == "*") by {
      if stop - p == 1 { assert s[p..stop] == [s[p]]; }
    }
    var isBr := stop - p == 2 && (s[p] == 'b' || s[p] == 'B') && (s[p + 1] == 'r' || s[p + 1] == 'R');
    i := SkipOwsLoop(s, i);
    if i < |s| && s[i] != ';' && s[i] != ',' {
      var j := SkipJunk(s, i);
      return if j == UNSURE then Nothing else Element(Neither, 1000, j);
    }
    var e := ReadRefParams(s, i);
    if e.Unsure? || (e.next < |s| && s[e.next] != ',') {
      return Nothing;
    }
    return Element(if !e.matches then Neither else if isBr then Explicit else if isStar then Star else Neither, e.q, e.next);
  }

  /** The reference's main loop: the weights it gathers, unless it gives up. */
  method GatherWeights(s: string) returns (r: RefOutcome)
    ensures r == RefFold(s, 0, NONE)
  {
    hide RefElementAt;
    var i, w := 0, NONE;
    while i < |s|
      invariant i <= |s| && RefFold(s, i, w) == RefFold(s, 0, NONE)
      decreases |s| - i
    {
      while i < |s| && (s[i] == ' ' || s[i] == '\t' || s[i] == ',')
        invariant i <= |s| && RefFold(s, i, w) == RefFold(s, 0, NONE)
      {
        i := i + 1;
      }
      if i >= |s| {
        break;
      }
      var e := ReadRefElement(s, i);
      if e.Nothing? {
        return GaveUp;
      }
      if e.form == Explicit {
        w := w.(explicit := e.q);
      } else if e.form == Star {
        w := w.(star := e.q);
      }
      i := if e.next < |s| then e.next + 1 else e.next;
    }
    r := Gathered(w);
  }

  method RefAccepts(s: string) returns (verdict: int)
    ensures verdict == RefVerdict(s)
    ensures verdict != UNSURE ==> (verdict == 1 <==> CodingWeightOf(s, "br", true) > 0)
  {
    hide RefFold, Fold;
    var r := GatherWeights(s);
    match r
    case GaveUp =>
      verdict := UNSURE;
    case Gathered(w) =>
      verdict :=
        if w.explicit >= 0 then (if w.explicit > 0 then 1 else 0)
        else if w.star >= 0 then (if w.star > 0 then 1 else 0) else 0;
      ReferenceAgrees(s);
  }
}
