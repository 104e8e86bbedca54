/**
 Exactly which line may be followed by another: the closed ones whose weights do not hang on
 elements left open.

 A line whose last quoted string never closes swallows, once joined, everything after it; read as
 a line of its own, what follows it still counts.  A closed line may still leave evaluations open,
 by a DQUOTE in a parameter name; what follows can then undo or restate their weights.
 */
module JoinExactly {
  import opened Text
  import opened Quoted
  import opened AcceptEncoding
  import opened Locality
  import opened FieldLines
  import opened Continuation
  import opened RoundTrip

  /** Inside quotes, text without a DQUOTE stays inside to the end. */
  lemma {:induction false} NoWayOut(y: string, i: nat, m: Mode, stops: set<char>)
    requires i <= |y| && m != Plain && forall k | i <= k < |y| :: y[k] != '"'
    ensures Cut(y, i, m, stops) == |y|
    decreases |y| - i
  {
    if i < |y| { NoWayOut(y, i + 1, Step(m, y[i]), stops); }
  }

  lemma QuoteFreeIsSilent(z: string)
    requires '"' !in z
    ensures TailOf(z) == Silent
  {
    hide Params;
    NoWayOut(z, 0, InQuotes, VALUE_STOPS);
    ParamsAtEnd(z, 1000, true);
  }

  lemma {:induction false} OpenElementSwallows(x: string, z: string, p: nat, m: Mode)
    requires p <= |x| && Cut(x, p, m, COMMA) == |x| && Run(x, p, |x|, m) != Plain && '"' !in z
    ensures Cut(x + "," + z, p, m, COMMA) == |x + "," + z|
    decreases |x| - p
  {
    var y := x + "," + z;
    if p < |x| {
      OpenElementSwallows(x, z, p + 1, Step(m, x[p]));
    } else {
      forall k | |x| < k < |y| ensures y[k] != '"' { assert y[k] == z[k - |x| - 1]; }
      NoWayOut(y, p, m, COMMA);
    }
  }

  lemma OpenElementKeeps(x: string, z: string, p: nat, coding: string, w: Weights)
    requires p <= |x| && Run(x, p, |x|, Plain) != Plain && '"' !in z
    ensures var y := x + "," + z;
            && ApplyElement(y, p, coding, w) == ApplyElement(x, p, coding, w)
            && ElementEnd(y, p) == if ElementEnd(x, p) < |x| then ElementEnd(x, p) else |y|
  {
    hide Weigh, Judge, Apply, Run, Cut, SkipOws, TailOf;
    var y, a := x + "," + z, SkipOws(x, p);
    var e := ElementEnd(x, p);
    SkipOwsEmbedded(x, y, 0, p);
    QuoteFreeIsSilent(z);
    if e < |x| {
      CutEmbedded(x, y, 0, p, Plain, COMMA);
    } else {
      OpenElementSwallows(x, z, p, Plain);
      if a == |x| { RunUnquoted(x, p, a); }
    }
    if a < e {
      JudgeAcross(x, z, a, coding);
      JudgeWeighs(x, a, coding);
    }
  }

  lemma JudgeWeighs(x: string, a: nat, coding: string)
    requires a <= |x|
    ensures Judge(x, a, coding).q == Weigh(x, a).q
  {}

  /** An unclosed line, joined with quote-free text, keeps the meaning it has alone. */
  lemma {:induction false} OpenLineSwallows(x: string, z: string, p: nat, coding: string, w: Weights)
    requires p <= |x| && Run(x, p, |x|, Plain) != Plain && '"' !in z
    ensures Fold(x + "," + z, p, coding, w) == Fold(x, p, coding, w)
    decreases |x| - p
  {
    hide Weigh, Run, Cut, SkipOws, ApplyElement;
    OpenElementKeeps(x, z, p, coding, w);
    CutIsFirstStop(x, p, Plain, COMMA);
    var e := ElementEnd(x, p);
    if e < |x| {
      RunSplit(x, p, e, |x|, Plain);
      AfterComma(x, e);
      hide ElementEnd;
      OpenLineSwallows(x, z, e + 1, coding, ApplyElement(x, p, coding, w));
    }
  }

  lemma AfterComma(x: string, e: nat)
    requires e < |x| && x[e] == ','
    ensures Run(x, e, |x|, Plain) == Run(x, e + 1, |x|, Plain)
  {}

  // ----- lines to join -----

  /** A name as a one-element list, with q=0 or without a weight. */
  function Mention(name: string, refused: bool): (e: Listed)
    ensures e.name == name
  {
    Listed(name, "", if refused then [Piece("", Q(false, "0"), "")] else [])
  }

  lemma MentionPrints(name: string, refused: bool)
    ensures PrintElement(Mention(name, refused)) == if refused then name + ";q=0" else name
  {
    var xs := Mention(name, refused).pieces;
    if refused {
      assert PrintPieces(xs[1..]) == "";
      assert PrintPiece(xs[0]) == ";q=0";
    }
  }

  lemma MentionStates(name: string, refused: bool)
    requires name != "" && IsPlainText(name)
    ensures PrintableElement(Mention(name, refused))
    ensures Stated(Mention(name, refused).pieces) == if refused then 0 else 1000
  {
    if refused { assert Mention(name, refused).pieces[0].item.Q?; }
  }

  lemma MentionWeighs(name: string, coding: string, refused: bool, w: Weights)
    requires name != "" && IsPlainText(name)
    ensures var z := PrintElement(Mention(name, refused));
            '"' !in z && Fold(z, 0, coding, w) == Apply(w, Verdict(FormOf(name, coding), if refused then 0 else 1000))
  {
    hide PrintElement, Stated, PrintableElement, Fold, FormOf, Apply;
    MentionPrints(name, refused);
    MentionStates(name, refused);
    FoldElement(Mention(name, refused), coding, w);
  }

  /** A quoted blob that names nothing and, read from inside a quote, is the tail `t`. */
  function Blob(t: Tail): string {
    match t
    case Silent => ""
    case Spoils => "\";;\""
    case States(q) => if q == 0 then "\";q=0;\"" else "\";q=1;\""
  }

  lemma SpoilsIsRead(rest: string)
    ensures TailOf("\";;\"" + "," + rest) == Spoils
  {
    var z := "\";;\"" + "," + rest;
    assert z[0] == '"' && z[1] == ';' && z[2] == ';';
    assert Cut(z, 1, Plain, VALUE_STOPS) == 1 == Cut(z, 0, InQuotes, VALUE_STOPS);
    assert SkipOws(z, 2) == 2 == Until(z, 2, PARAM_NAME_STOPS);
    assert ParamAt(z, 1) == Bad(false);
  }

  lemma StatesIsRead(d: char, rest: string)
    requires d == '0' || d == '1'
    ensures TailOf("\";q=" + [d] + ";\"" + "," + rest) == States(if d == '0' then 0 else 1000)
  {
    var z := "\";q=" + [d] + ";\"" + "," + rest;
    assert z[0] == '"' && z[1] == ';' && z[2] == 'q' && z[3] == '=' && z[4] == d && z[5] == ';' && z[6] == '"' && z[7] == ',';
    assert Cut(z, 1, Plain, VALUE_STOPS) == 1 == Cut(z, 0, InQuotes, VALUE_STOPS);
    WeightIsRead(z, d);
    NameIsRead(z);
    hide ParamAt, Cut;
    var q := if d == '0' then 0 else 1000;
    assert Params(z, 1, 1000, true).q == MALFORMED;
    assert Params(z, 5, q, true).q == Params(z, 7, q, true).q == q;
    assert Params(z, 1, 1000, false).q == q;
  }

  lemma WeightIsRead(z: string, d: char)
    requires |z| > 7 && z[1] == ';' && z[2] == 'q' && z[3] == '=' && z[4] == d && z[5] == ';' && (d == '0' || d == '1')
    ensures ParamAt(z, 1) == Weight(false, if d == '0' then 0 else 1000, 5)
  {
    hide IsQvalue, Milli;
    assert SkipOws(z, 2) == 2 && Until(z, 3, PARAM_NAME_STOPS) == 3 == Until(z, 2, PARAM_NAME_STOPS);
    assert z[2..3] == "q";
    assert SkipOws(z, 3) == 3 && SkipOws(z, 4) == 4;
    assert Until(z, 5, QVALUE_STOPS) == 5 == Until(z, 4, QVALUE_STOPS);
    assert z[4..5] == [d];
    OneDigit(d);
    assert SkipOws(z, 5) == 5;
  }

  lemma OneDigit(d: char)
    requires d == '0' || d == '1'
    ensures IsQvalue([d]) && Milli([d]) == if d == '0' then 0 else 1000
  {}

  lemma NameIsRead(z: string)
    requires |z| > 7 && z[5] == ';' && z[6] == '"' && z[7] == ','
    ensures ParamAt(z, 5) == Other(true, 7, false) && Params(z, 7, 1000, true).q == 1000 && Params(z, 7, 0, true).q == 0
  {
    assert SkipOws(z, 6) == 6 && Until(z, 7, PARAM_NAME_STOPS) == 7 == Until(z, 6, PARAM_NAME_STOPS);
    assert z[6..7] == "\"";
    assert SkipOws(z, 7) == 7;
  }

  /** The tail a blob was made for, one of the three that decide. */
  predicate Extreme(t: Tail) {
    t == Spoils || t == States(0) || t == States(1000)
  }

  lemma BlobIsRead(t: Tail, rest: string)
    requires Extreme(t)
    ensures TailOf(Blob(t) + "," + rest) == t
  {
    hide TailOf;
    match t
    case Spoils => SpoilsIsRead(rest);
    case States(q) =>
      StatesIsRead(if q == 0 then '0' else '1', rest);
      assert "\";q=" + "0" + ";\"" == "\";q=0;\"" && "\";q=" + "1" + ";\"" == "\";q=1;\"";
  }

  lemma BlobSays(t: Tail, coding: string, w: Weights)
    requires Extreme(t)
    ensures Clean(Blob(t)) && Fold(Blob(t), 0, coding, w) == w
  {
    hide FormOf;
    var b := Blob(t);
    BlobQuotes(t);
    RunIsModeAt(b, 0, |b|);
    assert SkipOws(b, 0) == 0 == Until(b, 0, NAME_STOPS);
    assert Judge(b, 0, coding).form == Neither;
  }

  lemma BlobQuotes(t: Tail)
    requires Extreme(t)
    ensures var b := Blob(t);
            b != "" && b[0] == '"' && Run(b, 0, |b|, Plain) == Plain && Cut(b, 0, Plain, COMMA) == |b|
  {
    var b := Blob(t);
    var n := |b| - 1;
    assert b[0] == b[n] == '"' && forall k | 1 <= k < n :: b[k] != '"' && b[k] != '\\';
    InsideQuotes(b, 1, n, COMMA);
    assert Cut(b, n, InQuotes, COMMA) == |b|;
    RunSplit(b, 1, n, |b|, InQuotes);
    assert Run(b, n, |b|, InQuotes) == Run(b, |b|, |b|, Plain) == Plain;
  }

  lemma {:induction false} InsideQuotes(s: string, i: nat, j: nat, stops: set<char>)
    requires i <= j <= |s| && forall k | i <= k < j :: s[k] != '"' && s[k] != '\\'
    ensures Run(s, i, j, InQuotes) == InQuotes && Cut(s, i, InQuotes, stops) == Cut(s, j, InQuotes, stops)
    decreases j - i
  {
    if i < j { InsideQuotes(s, i + 1, j, stops); }
  }

  lemma BlobThen(t: Tail, rest: string, coding: string, w: Weights)
    requires Extreme(t)
    ensures Fold(Blob(t) + "," + rest, 0, coding, w) == Fold(rest, 0, coding, w)
  {
    hide Fold, Clean, Blob;
    BlobSays(t, coding, w);
    FieldValueOfPair(Blob(t), rest, coding, w);
  }

  // ----- two lines in turn, and joined -----

  /** Joining `x` with any further line means reading the two in turn. */
  ghost predicate JoinsWithAny(x: string, coding: string, wildcard: bool) {
    forall z: string :: RequestWeight([x, z], coding, wildcard) == CodingWeightOf(x + "," + z, coding, wildcard)
  }

  lemma TwoLines(x: string, z: string, coding: string, wildcard: bool)
    ensures FoldLines(NONE, [x, z], coding, wildcard) == FoldLine(FoldLine(NONE, x, coding, wildcard), z, coding, wildcard)
    ensures Join([x, z]) == x + "," + z
  {
    hide FoldLine;
    assert [x, z][1..] == [z] && [z][1..] == [];
    var acc := FoldLine(NONE, x, coding, wildcard);
    assert FoldLines(acc, [z], coding, wildcard) == FoldLine(acc, z, coding, wildcard);
  }

  /** Two lines in turn: the second read from where the first left the weights. */
  lemma InTurn(x: string, z: string, coding: string, wildcard: bool)
    ensures RequestWeight([x, z], coding, wildcard) == Precedence(Fold(z, 0, coding, FieldValue(x, coding)), wildcard)
  {
    hide Fold, FoldLine;
    TwoLines(x, z, coding, wildcard);
    LineAgrees(NONE, NONE, x, coding, wildcard);
    LineAgrees(FoldLine(NONE, x, coding, wildcard), FieldValue(x, coding), z, coding, wildcard);
  }

  /** An unclosed line cannot be followed by every line. */
  lemma UnclosedFails(x: string, coding: string, wildcard: bool)
    requires coding != "" && IsPlainText(coding) && !Closed(x)
    ensures !JoinsWithAny(x, coding, wildcard)
  {
    hide IsPlainText, Fold, PrintElement, Mention, Run;
    RunIsModeAt(x, 0, |x|);
    CaseEqualReflexive(coding);
    var z0, z1 := PrintElement(Mention(coding, true)), PrintElement(Mention(coding, false));
    MentionWeighs(coding, coding, true, FieldValue(x, coding));
    MentionWeighs(coding, coding, false, FieldValue(x, coding));
    OpenLineSwallows(x, z0, 0, coding, NONE);
    OpenLineSwallows(x, z1, 0, coding, NONE);
    InTurn(x, z0, coding, wildcard);
    InTurn(x, z1, coding, wildcard);
    var y0, y1 := x + "," + z0, x + "," + z1;
    assert CodingWeightOf(y0, coding, wildcard) == CodingWeightOf(y1, coding, wildcard);
    assert RequestWeight([x, z0], coding, wildcard) != CodingWeightOf(y0, coding, wildcard)
        || RequestWeight([x, z1], coding, wildcard) != CodingWeightOf(y1, coding, wildcard);
  }

  /** Lines that may be followed by any text. */
  predicate Joinable(x: string, coding: string, wildcard: bool) {
    Closed(x) && Steady(x, coding, wildcard)
  }

  /** One joinable line in front keeps the two readings in agreement. */
  lemma JoinableAgrees(acc: Weights, w: Weights, x: string, z: string, coding: string, wildcard: bool)
    requires Agree(acc, w, wildcard) && Joinable(x, coding, wildcard)
    ensures Agree(FoldLine(acc, x, coding, wildcard), FoldUnder(x, 0, coding, w, TailOf(z)), wildcard)
    ensures Fold(x + "," + z, 0, coding, w) == Fold(z, 0, coding, FoldUnder(x, 0, coding, w, TailOf(z)))
  {
    hide Fold, FoldUnder, TailOf, Steady;
    RunIsModeAt(x, 0, |x|);
    FoldAcross(x, z, 0, coding, w);
    SteadyUnderAll(x, coding, wildcard, TailOf(z));
    LineAgrees(acc, w, x, coding, wildcard);
    FoldNone(x, coding, w);
    assert Override(w, NONE) == w;
    UnderOverrides(x, 0, coding, w, NONE, TailOf(z));
  }

  lemma {:induction false} JoinableLinesAgree(acc: Weights, w: Weights, lines: seq<string>, coding: string, wildcard: bool)
    requires Agree(acc, w, wildcard) && lines != []
    requires forall i | 0 <= i < |lines| - 1 :: Joinable(lines[i], coding, wildcard)
    ensures Agree(FoldLines(acc, lines, coding, wildcard), Fold(Join(lines), 0, coding, w), wildcard)
    decreases |lines|
  {
    hide Fold, FoldLine, Joinable, FoldUnder, TailOf, Agree;
    if |lines| > 1 {
      var rest := lines[1..];
      JoinableAgrees(acc, w, lines[0], Join(rest), coding, wildcard);
      assert forall i | 0 <= i < |rest| - 1 :: rest[i] == lines[i + 1];
      JoinableLinesAgree(FoldLine(acc, lines[0], coding, wildcard), FoldUnder(lines[0], 0, coding, w, TailOf(Join(rest))), rest, coding, wildcard);
    } else {
      LineAgrees(acc, w, lines[0], coding, wildcard);
      assert FoldLines(acc, lines, coding, wildcard) == FoldLine(acc, lines[0], coding, wildcard);
    }
  }

  /** Any number of lines: reading them in turn is reading their join, when all but the last are joinable. */
  lemma JoinableLines(lines: seq<string>, coding: string, wildcard: bool)
    requires forall i | 0 <= i < |lines| - 1 :: Joinable(lines[i], coding, wildcard)
    ensures RequestWeight(lines, coding, wildcard) == CodingWeightOf(Join(lines), coding, wildcard)
  {
    hide FoldLine, Joinable;
    if lines == [] {
      FoldAtEnd("", coding, NONE);
    } else {
      JoinableLinesAgree(NONE, NONE, lines, coding, wildcard);
    }
  }

  /** Weights that no further star weight tells apart agree. */
  lemma ToldApart(w: Weights, u: Weights, wildcard: bool, starred: bool)
    requires w.explicit >= -1 && u.explicit >= -1 && w.star >= -1 && u.star >= -1
    requires Precedence(w, wildcard) == Precedence(u, wildcard)
    requires if starred then Precedence(w.(star := 0), wildcard) == Precedence(u.(star := 0), wildcard)
                          && Precedence(w.(star := 1000), wildcard) == Precedence(u.(star := 1000), wildcard)
             else w.star == u.star == -1
    ensures Agree(w, u, wildcard)
  {}

  /** What joining with any line says about one tail. */
  lemma TailKept(x: string, coding: string, wildcard: bool, t: Tail)
    requires JoinsWithAny(x, coding, wildcard) && Closed(x) && Extreme(t)
    ensures KeptUnder(x, coding, wildcard, t)
  {
    hide Fold, FoldUnder, TailOf, Blob, JoinsWithAny, SameName, PrintElement, Mention, Closed, Precedence;
    var w, u := FieldValue(x, coding), FoldUnder(x, 0, coding, NONE, t);
    FoldInRange(x, 0, coding, NONE);
    UnderInRange(x, 0, coding, NONE, t);
    TailTold(x, coding, wildcard, t, "");
    EmptyAdds(coding, w);
    EmptyAdds(coding, u);
    var starred := !SameName("*", coding);
    if starred {
      StarTold(x, coding, wildcard, t, true);
      StarTold(x, coding, wildcard, t, false);
    } else {
      SilentKeeps(x, 0, coding, NONE);
      UnderInRange(x, 0, coding, NONE, Silent);
    }
    ToldApart(w, u, wildcard, starred);
  }

  lemma EmptyAdds(coding: string, w: Weights)
    ensures Fold("", 0, coding, w) == w
  {
    FoldAtEnd("", coding, w);
  }

  lemma TailTold(x: string, coding: string, wildcard: bool, t: Tail, rest: string)
    requires JoinsWithAny(x, coding, wildcard) && Closed(x) && Extreme(t)
    ensures Precedence(Fold(rest, 0, coding, FieldValue(x, coding)), wildcard)
         == Precedence(Fold(rest, 0, coding, FoldUnder(x, 0, coding, NONE, t)), wildcard)
  {
    hide Fold, FoldUnder, TailOf, Blob, Precedence, RequestWeight;
    var z := Blob(t) + "," + rest;
    RunIsModeAt(x, 0, |x|);
    BlobIsRead(t, rest);
    InTurn(x, z, coding, wildcard);
    FoldAcross(x, z, 0, coding, NONE);
    BlobThen(t, rest, coding, FieldValue(x, coding));
    BlobThen(t, rest, coding, FoldUnder(x, 0, coding, NONE, t));
    assert RequestWeight([x, z], coding, wildcard) == CodingWeightOf(x + "," + z, coding, wildcard);
  }

  lemma StarTold(x: string, coding: string, wildcard: bool, t: Tail, refused: bool)
    requires JoinsWithAny(x, coding, wildcard) && Closed(x) && Extreme(t) && !SameName("*", coding)
    ensures Precedence(FieldValue(x, coding).(star := if refused then 0 else 1000), wildcard)
         == Precedence(FoldUnder(x, 0, coding, NONE, t).(star := if refused then 0 else 1000), wildcard)
  {
    hide Fold, FoldUnder, JoinsWithAny, Closed, Precedence, PrintElement, Mention, SameName;
    var rest := PrintElement(Mention("*", refused));
    TailTold(x, coding, wildcard, t, rest);
    MentionWeighs("*", coding, refused, FieldValue(x, coding));
    MentionWeighs("*", coding, refused, FoldUnder(x, 0, coding, NONE, t));
  }

  /**
   Exactly when a line may be joined with any other: its quotes are closed, and as far as
   precedence looks its weights stay the same when the elements left open are dropped, or those of
   them that state no weight are given 0 or 1000.
   */
  lemma JoinsExactly(x: string, coding: string, wildcard: bool)
    requires coding != "" && IsPlainText(coding)
    ensures JoinsWithAny(x, coding, wildcard) <==> Joinable(x, coding, wildcard)
  {
    hide IsPlainText, RequestWeight, CodingWeightOf, KeptUnder;
    if !Closed(x) {
      UnclosedFails(x, coding, wildcard);
    } else if Steady(x, coding, wildcard) {
      forall z: string ensures RequestWeight([x, z], coding, wildcard) == CodingWeightOf(x + "," + z, coding, wildcard) {
        TwoLines(x, z, coding, wildcard);
        JoinableLines([x, z], coding, wildcard);
      }
    } else if JoinsWithAny(x, coding, wildcard) {
      TailKept(x, coding, wildcard, Spoils);
      TailKept(x, coding, wildcard, States(0));
      TailKept(x, coding, wildcard, States(1000));
    }
  }

  /** A line with nothing left open is steady, so only its quotes matter. */
  lemma JoinsExactlyWhenClosed(x: string, coding: string, wildcard: bool)
    requires coding != "" && IsPlainText(coding)
    ensures SelfContained(x, 0) ==> (JoinsWithAny(x, coding, wildcard) <==> Closed(x))
  {
    hide SelfContained, IsPlainText, JoinsWithAny, FoldUnder, Fold;
    JoinsExactly(x, coding, wildcard);
    if SelfContained(x, 0) {
      SelfContainedKeeps(x, 0, coding, NONE, Spoils);
      SelfContainedKeeps(x, 0, coding, NONE, States(0));
      SelfContainedKeeps(x, 0, coding, NONE, States(1000));
    }
  }

  // ----- a family of closed lines that goes both ways -----

  const OPEN_PARAM := ";a\"=\""

  lemma OpenParamReads(x: string, n: nat)
    requires |x| == n + 5 && x[n..] == OPEN_PARAM
    ensures Params(x, n, 1000, false) == Evaluation(1000, true, true, false)
  {
    assert x[n] == x[n..][0] && x[n + 1] == x[n..][1] && x[n + 2] == x[n..][2] && x[n + 3] == x[n..][3] && x[n + 4] == x[n..][4];
    assert SkipOws(x, n + 1) == n + 1;
    assert Until(x, n + 3, PARAM_NAME_STOPS) == n + 3 == Until(x, n + 2, PARAM_NAME_STOPS) == Until(x, n + 1, PARAM_NAME_STOPS);
    var name := x[n + 1..n + 3];
    assert name[1] == '"' && |name| == 2;
    assert SkipOws(x, n + 3) == n + 3 && SkipOws(x, n + 4) == n + 4;
    assert Cut(x, n + 5, InQuotes, VALUE_STOPS) == n + 5 == Cut(x, n + 4, Plain, VALUE_STOPS);
    assert Run(x, n + 5, n + 5, InQuotes) == InQuotes == Run(x, n + 4, n + 5, Plain);
  }

  lemma OpenParamQuotes(name: string)
    requires IsPlainText(name)
    ensures var x := name + OPEN_PARAM; Closed(x) && ElementEnd(x, 0) == |x|
  {
    hide IsPlainText;
    var x, n := name + OPEN_PARAM, |name|;
    assert forall k | 0 <= k < n :: x[k] == name[k];
    assert x[n] == ';' && x[n + 1] == 'a' && x[n + 2] == '"' && x[n + 3] == '=' && x[n + 4] == '"';
    PlainIsPlain(name);
    PlainStretch(x, 0, n + 2, COMMA);
    assert Run(x, n + 5, n + 5, Plain) == Plain == Run(x, n + 4, n + 5, InQuotes);
    assert Run(x, n + 4, n + 5, InQuotes) == Run(x, n + 3, n + 5, InQuotes) == Run(x, n + 2, n + 5, Plain);
    assert Cut(x, n + 5, Plain, COMMA) == n + 5 == Cut(x, n + 4, InQuotes, COMMA);
    assert Cut(x, n + 4, InQuotes, COMMA) == Cut(x, n + 3, InQuotes, COMMA) == Cut(x, n + 2, Plain, COMMA);
    RunSplit(x, 0, n + 2, n + 5, Plain);
    RunIsModeAt(x, 0, n + 5);
  }

  lemma PlainIsPlain(t: string)
    requires IsPlainText(t)
    ensures forall k | 0 <= k < |t| :: t[k] != '"' && t[k] !in COMMA && t[k] !in NAME_STOPS && !IsOws(t[k])
  {}

  lemma OpenParamLayout(name: string)
    requires name != "" && IsPlainText(name)
    ensures var x := name + OPEN_PARAM;
            && Closed(x) && ElementEnd(x, 0) == |x| && SkipOws(x, 0) == 0
            && Until(x, 0, NAME_STOPS) == |name| == SkipOws(x, |name|) && x[|name|] == ';'
            && Weigh(x, 0) == Evaluation(1000, true, true, false)
  {
    hide IsPlainText, Params, Closed, Cut;
    var x, n := name + OPEN_PARAM, |name|;
    OpenParamQuotes(name);
    PlainIsPlain(name);
    assert forall k | 0 <= k < n :: x[k] == name[k];
    assert x[n] == OPEN_PARAM[0] == ';' && x[n..] == OPEN_PARAM;
    assert Until(x, n, NAME_STOPS) == n && SkipOws(x, n) == n && SkipOws(x, 0) == 0;
    TokenRun(x, 0, name, NAME_STOPS);
    OpenParamReads(x, n);
  }

  lemma OpenParamUnder(name: string, coding: string, t: Tail)
    requires name != "" && IsPlainText(name)
    ensures var x := name + OPEN_PARAM;
            FoldUnder(x, 0, coding, NONE, t)
              == Apply(NONE, Verdict(FormOf(name, coding), Finished(Evaluation(1000, true, true, false), t)))
  {
    hide Until, SkipOws, Params, ElementEnd, FormOf, Closed, Weigh;
    var x := name + OPEN_PARAM;
    OpenParamLayout(name);
    assert x[0..|name|] == name;
  }

  /**
   `br;a"="` and its like close their quotes and leave their one element open: they may be joined
   with any line exactly when that element does not bear on the coding.
   */
  lemma OpenParamJoins(name: string, coding: string, wildcard: bool)
    requires name != "" && IsPlainText(name) && coding != "" && IsPlainText(coding)
    ensures Closed(name + OPEN_PARAM)
    ensures JoinsWithAny(name + OPEN_PARAM, coding, wildcard) <==>
            !SameName(name, coding) && !(name == "*" && wildcard)
  {
    hide FoldUnder, IsPlainText, JoinsWithAny, SameName, FieldValue, Closed;
    var x := name + OPEN_PARAM;
    OpenParamLayout(name);
    JoinsExactly(x, coding, wildcard);
    OpenParamUnder(name, coding, Silent);
    SilentKeeps(x, 0, coding, NONE);
    FieldIsFold(x, coding);
    OpenParamUnder(name, coding, Spoils);
    OpenParamUnder(name, coding, States(0));
    OpenParamUnder(name, coding, States(1000));
  }

  /** `br;a"="` then `";q=0;",`: 1000 in turn, 0 joined.  `gzip;a"="` joins with anything. */
  lemma OpenParamExamples(wildcard: bool)
    ensures var x, z := "br" + OPEN_PARAM, "\";q=0;\"" + "," + "";
            && Closed(x) && !JoinsWithAny(x, "br", wildcard)
            && RequestWeight([x, z], "br", wildcard) == 1000 && CodingWeightOf(x + "," + z, "br", wildcard) == 0
    ensures JoinsWithAny("gzip" + OPEN_PARAM, "br", wildcard)
  {
    hide FoldUnder, JoinsWithAny, Fold, RequestWeight, TailOf;
    var x, z := "br" + OPEN_PARAM, Blob(States(0)) + "," + "";
    assert SameName("br", "br") && !SameName("gzip", "br");
    OpenParamJoins("br", "br", wildcard);
    OpenParamJoins("gzip", "br", wildcard);
    OpenParamUnder("br", "br", Silent);
    OpenParamUnder("br", "br", States(0));
    SilentKeeps(x, 0, "br", NONE);
    InTurn(x, z, "br", wildcard);
    RunIsModeAt(x, 0, |x|);
    OpenParamLayout("br");
    BlobIsRead(States(0), "");
    FoldAcross(x, z, 0, "br", NONE);
    BlobThen(States(0), "", "br", FieldValue(x, "br"));
    BlobThen(States(0), "", "br", FoldUnder(x, 0, "br", NONE, States(0)));
    EmptyAdds("br", FieldValue(x, "br"));
    EmptyAdds("br", FoldUnder(x, 0, "br", NONE, States(0)));
  }
}
