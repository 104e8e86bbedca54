/**
 Printing a list of codings and walking it back.

 A printed list may give every weight in any of its legal spellings, may carry further parameters
 whose values are tokens or arbitrary text in an escaped quoted-string, and may also contain
 parameters the grammar does not allow: an empty one, a "q" without a qvalue, a second "q", junk after
 a weight or after a parameter without a value, and values with more in them than one token or string.
 */
module RoundTrip {
  import opened Text
  import opened Quoted
  import opened AcceptEncoding
  import opened FieldLines

  datatype Item =
    | Q(capital: bool, text: string)   // q=text; malformed unless text is a qvalue
    | BareQ(capital: bool)
    | Empty
    | Flag(name: string)
    | TokenParam(name: string, text: string)
    | QuotedParam(name: string, raw: string)
    | JunkQ(capital: bool, text: string, gap: string, junk: string)      // q=text, blanks, junk
    | JunkFlag(name: string, gap: string, junk: string)                  // name, blanks, junk
    | LooseParam(name: string, text: string, gap: string, more: string)  // name=text, blanks, more text
    | MixedParam(name: string, before: string, raw: string, after: string)

  /** One parameter as printed: ';', whitespace, the item, whitespace. */
  datatype Piece = Piece(lead: string, item: Item, trail: string)

  /** One list element: a coding name, whitespace, parameters. */
  datatype Listed = Listed(name: string, gap: string, pieces: seq<Piece>)

  function Escaped(raw: string): string {
    if raw == [] then ""
    else (if raw[0] == '"' || raw[0] == '\\' then ['\\', raw[0]] else [raw[0]]) + Escaped(raw[1..])
  }

  function QName(capital: bool): string {
    if capital then "Q" else "q"
  }

  function NameOf(i: Item): string {
    match i
    case Q(capital, _) => QName(capital)
    case BareQ(capital) => QName(capital)
    case Empty => ""
    case Flag(name) => name
    case TokenParam(name, _) => name
    case QuotedParam(name, _) => name
    case JunkQ(capital, _, _, _) => QName(capital)
    case JunkFlag(name, _, _) => name
    case LooseParam(name, _, _, _) => name
    case MixedParam(name, _, _, _) => name
  }

  function ValueOf(i: Item): string {
    match i
    case Q(_, text) => "=" + text
    case TokenParam(_, text) => "=" + text
    case QuotedParam(_, raw) => "=" + ("\"" + Escaped(raw) + "\"")
    case JunkQ(_, text, gap, junk) => "=" + (text + (gap + junk))
    case JunkFlag(_, gap, junk) => gap + junk
    case LooseParam(_, text, gap, more) => "=" + (text + (gap + more))
    case MixedParam(_, before, raw, after) => "=" + (before + ("\"" + Escaped(raw) + "\"" + after))
    case _ => ""
  }

  function PrintPiece(x: Piece): string {
    ";" + (x.lead + (NameOf(x.item) + (ValueOf(x.item) + x.trail)))
  }

  function PrintPieces(xs: seq<Piece>): string {
    if xs == [] then "" else PrintPiece(xs[0]) + PrintPieces(xs[1..])
  }

  function PrintElement(e: Listed): string {
    e.name + e.gap + PrintPieces(e.pieces)
  }

  function PrintElements(es: seq<Listed>): seq<string> {
    seq(|es|, i requires 0 <= i < |es| => PrintElement(es[i]))
  }

  function PrintList(es: seq<Listed>): string {
    Join(PrintElements(es))
  }

  // ----- what may be printed -----

  predicate IsBlank(t: string) {
    forall k | 0 <= k < |t| :: t[k] == ' ' || t[k] == '\t'
  }

  /** No whitespace, delimiter or quote: such text is one unit to every scanner. */
  predicate IsPlainText(t: string) {
    forall k | 0 <= k < |t| :: t[k] !in {' ', '\t', ';', ',', '"'}
  }

  predicate IsParamName(t: string) {
    t != [] && IsPlainText(t) && '=' !in t && t != "q" && t != "Q"
  }

  predicate Printable(i: Item) {
    match i
    case Q(_, text) => IsPlainText(text)
    case BareQ(_) => true
    case Empty => true
    case Flag(name) => IsParamName(name)
    case TokenParam(name, text) => IsParamName(name) && IsPlainText(text)
    case QuotedParam(name, _) => IsParamName(name)
    case JunkQ(_, text, gap, junk) => IsPlainText(text) && text != "" && IsGap(gap) && IsJunk(junk)
    case JunkFlag(name, gap, junk) => IsParamName(name) && IsGap(gap) && IsJunk(junk) && junk[0] != '='
    case LooseParam(name, text, gap, more) => IsParamName(name) && IsPlainText(text) && text != "" && IsGap(gap) && IsMore(more)
    case MixedParam(name, before, raw, after) => IsParamName(name) && IsPlainText(before) && (after == "" || IsMore(after)) && before + after != ""
  }

  predicate IsGap(t: string) {
    t != "" && IsBlank(t)
  }

  /** What may not follow a value: anything that starts with no blank and no delimiter; commas and quotes are left out. */
  predicate IsJunk(t: string) {
    t != "" && t[0] !in {' ', '\t', ';', ','} && forall k | 0 <= k < |t| :: t[k] != ',' && t[k] != '"'
  }

  /** Such text, with no ';' either. */
  predicate IsMore(t: string) {
    IsJunk(t) && ';' !in t
  }

  predicate PrintablePiece(x: Piece) {
    IsBlank(x.lead) && IsBlank(x.trail) && Printable(x.item)
  }

  predicate PrintableElement(e: Listed) {
    && e.name != [] && IsPlainText(e.name) && IsBlank(e.gap)
    && forall i | 0 <= i < |e.pieces| :: PrintablePiece(e.pieces[i])
  }

  // ----- what it means -----

  /** The items that make an element malformed by themselves. */
  predicate Malformed(i: Item) {
    i.Empty? || i.BareQ? || (i.Q? && !IsQvalue(i.text)) || i.JunkQ? || i.JunkFlag?
  }

  predicate WellFormed(xs: seq<Piece>) {
    && (forall i | 0 <= i < |xs| :: !Malformed(xs[i].item))
    && (forall i, j | 0 <= i < j < |xs| :: !(xs[i].item.Q? && xs[j].item.Q?))
  }

  /** The weight an element states: that of its "q", else 1000; -1 when it is malformed. */
  ghost function Stated(xs: seq<Piece>): int {
    if !WellFormed(xs) then -1
    else if i :| 0 <= i < |xs| && xs[i].item.Q? then Milli(xs[i].item.text)
    else 1000
  }

  // ----- reading one printed parameter -----

  /** `t` stands in `y` at `p`. */
  ghost predicate At(y: string, p: nat, t: string) {
    p + |t| <= |y| && y[p..p + |t|] == t
  }

  lemma AtParts(y: string, p: nat, t: string, u: string)
    requires At(y, p, t + u)
    ensures At(y, p, t) && At(y, p + |t|, u)
  {
    assert y[p..p + |t|] == (t + u)[..|t|];
    assert y[p + |t|..p + |t| + |u|] == (t + u)[|t|..];
  }

  lemma BlankRun(y: string, p: nat, t: string)
    requires At(y, p, t) && IsBlank(t)
    requires p + |t| == |y| || !IsOws(y[p + |t|])
    ensures SkipOws(y, p) == p + |t|
  {
    forall k | p <= k < p + |t| ensures IsOws(y[k]) { assert y[k] == t[k - p]; }
  }

  lemma TokenRun(y: string, p: nat, t: string, stops: set<char>)
    requires At(y, p, t) && (forall k | 0 <= k < |t| :: t[k] !in stops)
    requires p + |t| == |y| || y[p + |t|] in stops
    ensures Until(y, p, stops) == p + |t|
  {
    forall k | p <= k < p + |t| ensures y[k] !in stops { assert y[k] == t[k - p]; }
  }

  /** A value without quotes, and the whitespace after it, run to the next delimiter. */
  lemma {:induction false} PlainValueRun(y: string, p: nat, e: nat)
    requires p <= e <= |y| && AtDelimiter(y, e)
    requires forall k | p <= k < e :: y[k] !in VALUE_STOPS && y[k] != '"'
    ensures Cut(y, p, Plain, VALUE_STOPS) == e && Run(y, p, e, Plain) == Plain
    decreases e - p
  {
    if p < e { PlainValueRun(y, p + 1, e); }
  }

  /** An escaped text never leaves the quotes, whatever it escapes. */
  lemma {:induction false} EscapedRun(y: string, p: nat, raw: string, stops: set<char>)
    requires At(y, p, Escaped(raw))
    ensures Run(y, p, p + |Escaped(raw)|, InQuotes) == InQuotes
    ensures Cut(y, p, InQuotes, stops) == Cut(y, p + |Escaped(raw)|, InQuotes, stops)
    decreases |raw|
  {
    if raw != [] {
      var head := if raw[0] == '"' || raw[0] == '\\' then ['\\', raw[0]] else [raw[0]];
      AtParts(y, p, head, Escaped(raw[1..]));
      assert y[p..p + |head|][0] == y[p];
      if |head| == 2 { assert y[p..p + |head|][1] == y[p + 1]; }
      EscapedRun(y, p + |head|, raw[1..], stops);
      RunSplit(y, p, p + |head|, p + |Escaped(raw)|, InQuotes);
      assert Run(y, p, p + |head|, InQuotes) == InQuotes by {
        if |head| == 2 { assert Run(y, p + 1, p + 2, Escape) == InQuotes; }
      }
    }
  }

  /** Reading one character that is not a stop. */
  lemma OneStep(y: string, i: nat, j: nat, m: Mode, stops: set<char>)
    requires i < j <= |y| && !(m == Plain && y[i] in stops)
    ensures Run(y, i, j, m) == Run(y, i + 1, j, Step(m, y[i]))
    ensures Cut(y, i, m, stops) == Cut(y, i + 1, Step(m, y[i]), stops)
  {}

  /** A quoted value is passed over in one go, whatever stops are looked for. */
  lemma QuotedRun(y: string, p: nat, raw: string, stops: set<char>)
    requires At(y, p, "\"" + Escaped(raw) + "\"") && '"' !in stops
    ensures var c := p + |Escaped(raw)| + 2;
            && Run(y, p, c, Plain) == Plain
            && Cut(y, p, Plain, stops) == Cut(y, c, Plain, stops)
  {
    hide Run, Cut, Escaped;
    var t := Escaped(raw);
    AtParts(y, p, "\"" + t, "\"");
    AtParts(y, p, "\"", t);
    assert y[p] == y[p..p + 1][0] == '"';
    assert y[p + 1 + |t|] == y[p + 1 + |t|..p + 2 + |t|][0] == '"';
    EscapedRun(y, p + 1, raw, stops);
    var c := p + 2 + |t|;
    OneStep(y, p, c, Plain, stops);
    RunSplit(y, p + 1, p + 1 + |t|, c, InQuotes);
    OneStep(y, p + 1 + |t|, c, InQuotes, stops);
    assert Run(y, c, c, Plain) == Plain by { RunUnquoted(y, c, c); }
  }

  lemma QuotedValueRun(y: string, p: nat, raw: string, e: nat)
    requires At(y, p, "\"" + Escaped(raw) + "\"")
    requires p + |Escaped(raw)| + 2 <= e <= |y| && AtDelimiter(y, e)
    requires forall k | p + |Escaped(raw)| + 2 <= k < e :: y[k] !in VALUE_STOPS && y[k] != '"'
    ensures Cut(y, p, Plain, VALUE_STOPS) == e && Run(y, p, e, Plain) == Plain
  {
    hide Run, Cut, Escaped;
    var c := p + 2 + |Escaped(raw)|;
    QuotedRun(y, p, raw, VALUE_STOPS);
    PlainValueRun(y, c, e);
    RunSplit(y, p, c, e, Plain);
  }

  /** What the evaluator makes of one printed parameter that ends at `e`. */
  function Read(i: Item, e: nat): Param {
    if Malformed(i) then Bad(false)
    else if i.Q? then Weight(false, Milli(i.text), e)
    else Other(false, e, false)
  }

  lemma ReadValueless(y: string, p: nat, trail: string, isQ: bool)
    requires At(y, p, trail) && IsBlank(trail) && AtDelimiter(y, p + |trail|)
    ensures AfterName(y, p, isQ, false) == if isQ then Bad(false) else Other(false, p + |trail|, false)
  {
    BlankRun(y, p, trail);
  }

  lemma ReadQ(y: string, p: nat, text: string, trail: string)
    requires At(y, p, "=" + (text + trail)) && IsPlainText(text) && IsBlank(trail)
    requires AtDelimiter(y, p + 1 + |text| + |trail|)
    ensures AfterName(y, p, true, false) ==
            if IsQvalue(text) then Weight(false, Milli(text), p + 1 + |text| + |trail|) else Bad(false)
  {
    hide IsQvalue, Milli, Until, Cut, Run, ValueAt, QvalueAt;
    AtParts(y, p, "=", text + trail);
    FirstOf(y, p, "=");
    QvalueRun(y, p + 1, text, trail);
  }

  lemma QvalueRun(y: string, p: nat, text: string, trail: string)
    requires At(y, p, text + trail) && IsPlainText(text) && IsBlank(trail)
    requires AtDelimiter(y, p + |text| + |trail|)
    ensures QvalueAt(y, SkipOws(y, p)) ==
            if IsQvalue(text) then Weight(false, Milli(text), p + |text| + |trail|) else Bad(false)
  {
    hide IsQvalue, Milli, Until, QvalueAt, SkipOws;
    AtParts(y, p, text, trail);
    var v := p + |text|;
    BlankRun(y, v, trail);
    if text == [] {
      EmptyIsNoQvalue();
      TokenRun(y, v + |trail|, "", QVALUE_STOPS);
      BlankRun(y, v + |trail|, "");
      QvalueText(y, v + |trail|, "", v + |trail|);
    } else {
      FirstOf(y, p, text);
      if trail != "" { FirstOf(y, v, trail); }
      BlankRun(y, p, "");
      TokenRun(y, p, text, QVALUE_STOPS);
      QvalueText(y, p, text, v + |trail|);
    }
  }

  lemma QvalueText(y: string, p: nat, text: string, e: nat)
    requires At(y, p, text) && p + |text| <= e <= |y| && AtDelimiter(y, e)
    requires Until(y, p, QVALUE_STOPS) == p + |text| && SkipOws(y, p + |text|) == e
    ensures QvalueAt(y, p) == if IsQvalue(text) then Weight(false, Milli(text), e) else Bad(false)
  {}

  lemma EmptyIsNoQvalue()
    ensures !IsQvalue("")
  {}

  lemma ReadToken(y: string, p: nat, text: string, trail: string)
    requires At(y, p, "=" + (text + trail)) && IsPlainText(text) && IsBlank(trail)
    requires AtDelimiter(y, p + 1 + |text| + |trail|)
    ensures AfterName(y, p, false, false) == Other(false, p + 1 + |text| + |trail|, false)
  {
    hide Cut, Run;
    AtParts(y, p, "=", text + trail);
    assert y[p] == y[p..p + 1][0] == '=';
    var e := p + 1 + |text| + |trail|;
    forall k | p + 1 <= k < e ensures y[k] !in VALUE_STOPS && y[k] != '"' {
      assert y[k] == (text + trail)[k - p - 1];
    }
    PlainValueRun(y, SkipOws(y, p + 1), e);
  }

  lemma ReadQuoted(y: string, p: nat, raw: string, trail: string)
    requires At(y, p, "=" + (("\"" + Escaped(raw) + "\"") + trail)) && IsBlank(trail)
    requires AtDelimiter(y, p + 3 + |Escaped(raw)| + |trail|)
    ensures AfterName(y, p, false, false) == Other(false, p + 3 + |Escaped(raw)| + |trail|, false)
  {
    hide Cut, Run;
    var value := "\"" + Escaped(raw) + "\"";
    AtParts(y, p, "=", value + trail);
    AtParts(y, p + 1, value, trail);
    assert y[p] == y[p..p + 1][0] == '=';
    assert y[p + 1] == value[0] == '"';
    var c, e := p + 1 + |value|, p + 1 + |value| + |trail|;
    forall k | c <= k < e ensures IsOws(y[k]) { assert y[k] == trail[k - c]; }
    QuotedValueRun(y, p + 1, raw, e);
  }

  /** A weight followed by junk. */
  lemma ReadJunkQ(y: string, p: nat, text: string, gap: string, junk: string)
    requires At(y, p, "=" + (text + (gap + junk))) && IsPlainText(text) && text != "" && IsGap(gap)
    requires junk != "" && junk[0] !in {' ', '\t', ';', ','}
    ensures AfterName(y, p, true, false) == Bad(false)
  {
    hide IsQvalue, Milli, At, IsPlainText, Until, SkipOws;
    AtParts(y, p, "=", text + (gap + junk));
    FirstOf(y, p, "=");
    AtParts(y, p + 1, text, gap + junk);
    JunkAfter(y, p + 1, text, gap, junk);
  }

  lemma JunkAfter(y: string, v: nat, text: string, gap: string, junk: string)
    requires At(y, v, text) && At(y, v + |text|, gap + junk) && IsPlainText(text) && text != "" && IsGap(gap)
    requires junk != "" && junk[0] !in {' ', '\t', ';', ','}
    ensures SkipOws(y, v) == v && v <= |y| && QvalueAt(y, v) == Bad(false)
  {
    hide IsQvalue, Milli;
    AtParts(y, v + |text|, gap, junk);
    FirstOf(y, v, text);
    FirstOf(y, v + |text|, gap);
    FirstOf(y, v + |text| + |gap|, junk);
    TokenRun(y, v, text, QVALUE_STOPS);
    BlankRun(y, v + |text|, gap);
  }

  /** A parameter without a value followed by junk. */
  lemma ReadJunkFlag(y: string, p: nat, gap: string, junk: string)
    requires At(y, p, gap + junk) && IsGap(gap)
    requires junk != "" && junk[0] !in {' ', '\t', ';', ',', '='}
    ensures AfterName(y, p, false, false) == Bad(false)
  {
    AtParts(y, p, gap, junk);
    FirstOf(y, p + |gap|, junk);
    BlankRun(y, p, gap);
  }

  predicate Unstopped(t: string) {
    forall k | 0 <= k < |t| :: t[k] !in VALUE_STOPS && t[k] != '"'
  }

  lemma UnstoppedJoin(a: string, b: string)
    requires Unstopped(a) && Unstopped(b)
    ensures Unstopped(a + b)
  {}

  lemma UnstoppedKinds(t: string)
    ensures IsPlainText(t) || IsBlank(t) || IsMore(t) ==> Unstopped(t)
  {}

  /** A value of any text without delimiters and quotes runs to the next delimiter. */
  lemma ReadUnstopped(y: string, p: nat, text: string)
    requires At(y, p, "=" + text) && Unstopped(text) && AtDelimiter(y, p + 1 + |text|)
    ensures AfterName(y, p, false, false) == Other(false, p + 1 + |text|, false)
  {
    hide Cut, Run;
    AtParts(y, p, "=", text);
    FirstOf(y, p, "=");
    var e := p + 1 + |text|;
    forall k | p + 1 <= k < e ensures y[k] !in VALUE_STOPS && y[k] != '"' {
      assert y[k] == y[p + 1..e][k - p - 1] == text[k - p - 1];
    }
    assert SkipOws(y, p + 1) <= e;
    PlainValueRun(y, SkipOws(y, p + 1), e);
  }

  lemma ReadLoose(y: string, p: nat, text: string, gap: string, more: string, trail: string)
    requires At(y, p, "=" + (text + (gap + (more + trail)))) && IsPlainText(text) && IsGap(gap) && IsMore(more) && IsBlank(trail)
    requires AtDelimiter(y, p + 1 + |text + (gap + (more + trail))|)
    ensures AfterName(y, p, false, false) == Other(false, p + 1 + |text + (gap + (more + trail))|, false)
  {
    hide AfterName, Unstopped, IsPlainText, IsBlank, IsMore, At, AtDelimiter;
    assert IsBlank(gap) by { GapIsBlank(gap); }
    UnstoppedKinds(text);
    UnstoppedKinds(gap);
    UnstoppedKinds(more);
    UnstoppedKinds(trail);
    UnstoppedJoin(more, trail);
    UnstoppedJoin(gap, more + trail);
    UnstoppedJoin(text, gap + (more + trail));
    ReadUnstopped(y, p, text + (gap + (more + trail)));
  }

  lemma GapIsBlank(gap: string)
    requires IsGap(gap)
    ensures IsBlank(gap)
  {}

  /** A value with a quoted string among other text, to its end. */
  lemma MixedRun(y: string, v: nat, before: string, raw: string, after: string, trail: string)
    requires At(y, v, before + (("\"" + Escaped(raw) + "\"") + (after + trail))) && IsPlainText(before)
    requires (after == "" || IsMore(after)) && IsBlank(trail)
    requires AtDelimiter(y, v + 2 + |before| + |Escaped(raw)| + |after + trail|)
    ensures var e := v + 2 + |before| + |Escaped(raw)| + |after + trail|;
            Cut(y, v, Plain, VALUE_STOPS) == e && Run(y, v, e, Plain) == Plain
  {
    hide Cut, Run, Escaped;
    var value, tail := "\"" + Escaped(raw) + "\"", after + trail;
    AtParts(y, v, before, value + tail);
    AtParts(y, v + |before|, value, tail);
    var a, c, e := v + |before|, v + |before| + |value|, v + |before| + |value| + |tail|;
    UnstoppedKinds(after);
    UnstoppedKinds(trail);
    UnstoppedJoin(after, trail);
    forall k | c <= k < e ensures y[k] !in VALUE_STOPS && y[k] != '"' { assert y[k] == y[c..e][k - c] == tail[k - c]; }
    QuotedValueRun(y, a, raw, e);
    forall k | v <= k < a ensures y[k] !in VALUE_STOPS && y[k] != '"' { assert y[k] == y[v..a][k - v] == before[k - v]; }
    PlainStretch(y, v, a, VALUE_STOPS);
    RunSplit(y, v, a, e, Plain);
  }

  lemma ReadMixed(y: string, p: nat, before: string, raw: string, after: string, trail: string)
    requires At(y, p, "=" + (before + (("\"" + Escaped(raw) + "\"") + (after + trail)))) && IsPlainText(before)
    requires (after == "" || IsMore(after)) && IsBlank(trail)
    requires AtDelimiter(y, p + 3 + |before| + |Escaped(raw)| + |after + trail|)
    ensures AfterName(y, p, false, false) == Other(false, p + 3 + |before| + |Escaped(raw)| + |after + trail|, false)
  {
    hide Cut, Run, Escaped, IsMore;
    var value := "\"" + Escaped(raw) + "\"";
    AtParts(y, p, "=", before + (value + (after + trail)));
    FirstOf(y, p, "=");
    AtParts(y, p + 1, before, value + (after + trail));
    AtParts(y, p + 1 + |before|, value, after + trail);
    FirstOf(y, p + 1 + |before|, value);
    if before != "" { FirstOf(y, p + 1, before); }
    MixedRun(y, p + 1, before, raw, after, trail);
  }

  lemma Regrouped(a: string, b: string, c: string)
    ensures (a + b) + c == a + (b + c)
  {}

  /** The text of a value with more than one part, and of what trails it, part by part. */
  function OddText(x: Piece): string
    requires x.item.JunkQ? || x.item.JunkFlag? || x.item.LooseParam? || x.item.MixedParam?
  {
    match x.item
    case JunkQ(_, text, gap, junk) => "=" + (text + (gap + (junk + x.trail)))
    case JunkFlag(_, gap, junk) => gap + (junk + x.trail)
    case LooseParam(_, text, gap, more) => "=" + (text + (gap + (more + x.trail)))
    case MixedParam(_, before, raw, after) => "=" + (before + (("\"" + Escaped(raw) + "\"") + (after + x.trail)))
  }

  lemma OddTextIs(x: Piece)
    requires x.item.JunkQ? || x.item.JunkFlag? || x.item.LooseParam? || x.item.MixedParam?
    ensures ValueOf(x.item) + x.trail == OddText(x)
  {
    hide Escaped;
    match x.item
    case JunkQ(_, text, gap, junk) => Parts("=", text, gap, junk, x.trail);
    case JunkFlag(_, gap, junk) => Regrouped(gap, junk, x.trail);
    case LooseParam(_, text, gap, more) => Parts("=", text, gap, more, x.trail);
    case MixedParam(_, before, raw, after) => Parts("=", before, "\"" + Escaped(raw) + "\"", after, x.trail);
  }

  lemma Parts(a: string, b: string, c: string, d: string, e: string)
    ensures (a + (b + (c + d))) + e == a + (b + (c + (d + e)))
  {
    Regrouped(a, b + (c + d), e);
    Regrouped(b, c + d, e);
    Regrouped(c, d, e);
  }

  lemma ReadOddValue(y: string, p: nat, x: Piece)
    requires PrintablePiece(x) && At(y, p, ValueOf(x.item) + x.trail) && AtDelimiter(y, p + |ValueOf(x.item) + x.trail|)
    requires x.item.JunkQ? || x.item.JunkFlag? || x.item.LooseParam? || x.item.MixedParam?
    ensures AfterName(y, p, IsQ(NameOf(x.item)), false) == Read(x.item, p + |ValueOf(x.item) + x.trail|)
  {
    hide AfterName, Escaped, IsQvalue, Milli, At, IsPlainText, IsBlank, AtDelimiter, ValueOf;
    OddTextIs(x);
    match x.item
    case JunkQ(_, text, gap, junk) => ReadJunkQ(y, p, text, gap, junk + x.trail);
    case JunkFlag(_, gap, junk) => ReadJunkFlag(y, p, gap, junk + x.trail);
    case LooseParam(_, text, gap, more) => ReadLoose(y, p, text, gap, more, x.trail);
    case MixedParam(_, before, raw, after) => ReadMixed(y, p, before, raw, after, x.trail);
  }

  lemma ReadAfterName(y: string, p: nat, x: Piece)
    requires PrintablePiece(x) && !x.item.Empty? && At(y, p, ValueOf(x.item) + x.trail)
    requires AtDelimiter(y, p + |ValueOf(x.item) + x.trail|)
    ensures AfterName(y, p, IsQ(NameOf(x.item)), false) == Read(x.item, p + |ValueOf(x.item) + x.trail|)
  {
    hide AfterName, Escaped, IsQvalue, Milli, At, IsPlainText, IsBlank, AtDelimiter;
    match x.item
    case Q(_, text) =>
      assert ValueOf(x.item) + x.trail == "=" + (text + x.trail);
      ReadQ(y, p, text, x.trail);
    case BareQ(_) =>
      assert ValueOf(x.item) + x.trail == x.trail;
      ReadValueless(y, p, x.trail, true);
    case Flag(name) =>
      assert ValueOf(x.item) + x.trail == x.trail;
      ReadValueless(y, p, x.trail, false);
    case TokenParam(name, text) =>
      assert ValueOf(x.item) + x.trail == "=" + (text + x.trail);
      ReadToken(y, p, text, x.trail);
    case QuotedParam(name, raw) =>
      assert ValueOf(x.item) + x.trail == "=" + (("\"" + Escaped(raw) + "\"") + x.trail);
      ReadQuoted(y, p, raw, x.trail);
    case _ => ReadOddValue(y, p, x);
  }

  lemma PieceParts(y: string, p: nat, x: Piece)
    requires At(y, p, PrintPiece(x))
    ensures y[p] == ';' && At(y, p + 1, x.lead)
    ensures At(y, p + 1 + |x.lead|, NameOf(x.item))
    ensures At(y, p + 1 + |x.lead| + |NameOf(x.item)|, ValueOf(x.item) + x.trail)
    ensures |PrintPiece(x)| == 1 + |x.lead| + |NameOf(x.item)| + |ValueOf(x.item) + x.trail|
  {
    hide Escaped, NameOf, ValueOf;
    var name, rest := NameOf(x.item), ValueOf(x.item) + x.trail;
    AtParts(y, p, ";", x.lead + (name + rest));
    assert y[p] == y[p..p + 1][0] == ';';
    AtParts(y, p + 1, x.lead, name + rest);
    AtParts(y, p + 1 + |x.lead|, name, rest);
  }

  lemma FirstOf(y: string, p: nat, t: string)
    requires At(y, p, t) && t != ""
    ensures p < |y| && y[p] == t[0]
  {
    assert y[p] == y[p..p + |t|][0];
  }

  lemma NamesArePlain(x: Piece)
    requires PrintablePiece(x) && !x.item.Empty?
    ensures var n := NameOf(x.item); n != "" && (forall k | 0 <= k < |n| :: n[k] !in PARAM_NAME_STOPS && n[k] != '"')
  {}

  lemma ValueStart(y: string, p: nat, x: Piece)
    requires PrintablePiece(x) && At(y, p, ValueOf(x.item) + x.trail)
    requires AtDelimiter(y, p + |ValueOf(x.item) + x.trail|)
    ensures p == |y| || y[p] in PARAM_NAME_STOPS
  {
    var t := ValueOf(x.item) + x.trail;
    if t != "" { FirstOf(y, p, t); }
  }

  lemma NamedParam(y: string, p: nat, start: nat, name: string)
    requires p < |y| && y[p] == ';' && start <= |y| && At(y, start, name) && name != "" && '"' !in name
    requires SkipOws(y, p + 1) == start && Until(y, start, PARAM_NAME_STOPS) == start + |name|
    ensures ParamAt(y, p) == AfterName(y, start + |name|, IsQ(name), false)
  {
    hide AfterName;
  }

  lemma PieceScans(y: string, p: nat, x: Piece)
    requires PrintablePiece(x) && !x.item.Empty?
    requires At(y, p, PrintPiece(x)) && AtDelimiter(y, p + |PrintPiece(x)|)
    ensures var b := p + 1 + |x.lead|;
            p < |y| && SkipOws(y, p + 1) == b && Until(y, b, PARAM_NAME_STOPS) == b + |NameOf(x.item)|
  {
    hide Escaped, NameOf, ValueOf, Until, SkipOws, Printable, IsPlainText, PrintPiece;
    PieceParts(y, p, x);
    var name := NameOf(x.item);
    var b := p + 1 + |x.lead|;
    NamesArePlain(x);
    FirstOf(y, b, name);
    BlankRun(y, p + 1, x.lead);
    ValueStart(y, b + |name|, x);
    TokenRun(y, b, name, PARAM_NAME_STOPS);
  }

  /** A printed parameter is read as what it is, and ends where it was printed to end. */
  lemma ReadPiece(y: string, p: nat, x: Piece)
    requires PrintablePiece(x) && At(y, p, PrintPiece(x)) && AtDelimiter(y, p + |PrintPiece(x)|)
    ensures p < |y| && y[p] == ';' && ParamAt(y, p) == Read(x.item, p + |PrintPiece(x)|)
  {
    hide AfterName, ParamAt, NameOf, ValueOf, Read, Until, SkipOws, Printable, PrintPiece, PrintablePiece, IsQ;
    PieceParts(y, p, x);
    if x.item.Empty? {
      EmptyPiece(y, p, x);
    } else {
      PieceScans(y, p, x);
      NamesArePlain(x);
      var b := p + 1 + |x.lead|;
      NamedParam(y, p, b, NameOf(x.item));
      ReadAfterName(y, b + |NameOf(x.item)|, x);
    }
  }

  lemma EmptyPiece(y: string, p: nat, x: Piece)
    requires PrintablePiece(x) && x.item.Empty? && At(y, p, PrintPiece(x)) && AtDelimiter(y, p + |PrintPiece(x)|)
    requires p < |y| && y[p] == ';'
    ensures ParamAt(y, p) == Bad(false) == Read(x.item, p + |PrintPiece(x)|)
  {
    hide AfterName;
    var e := p + |PrintPiece(x)|;
    forall k | p + 1 <= k < e ensures IsOws(y[k]) {
      assert PrintPiece(x) == ";" + (x.lead + x.trail);
      assert y[k] == y[p..e][k - p] == (x.lead + x.trail)[k - p - 1];
    }
    assert SkipOws(y, p + 1) == e;
  }

  // ----- reading the parameters of an element -----

  /** The evaluator's left-to-right reading, on the items themselves. */
  function Meaning(xs: seq<Piece>, q: int, seen: bool): int {
    if xs == [] then q
    else if Malformed(xs[0].item) then -1
    else if xs[0].item.Q? then if seen then -1 else Meaning(xs[1..], Milli(xs[0].item.text), true)
    else Meaning(xs[1..], q, seen)
  }

  lemma {:induction false} ReadPieces(y: string, p: nat, xs: seq<Piece>, q: int, seen: bool)
    requires forall i | 0 <= i < |xs| :: PrintablePiece(xs[i])
    requires At(y, p, PrintPieces(xs)) && -1 <= q <= 1000
    requires p + |PrintPieces(xs)| == |y| || y[p + |PrintPieces(xs)|] == ','
    ensures Params(y, p, q, seen) == Evaluation(Meaning(xs, q, seen), false, false, false)
    decreases |xs|
  {
    hide ParamAt, PrintPiece, Milli, IsQvalue, PrintablePiece;
    if xs != [] {
      var x, rest := xs[0], PrintPieces(xs[1..]);
      AtParts(y, p, PrintPiece(x), rest);
      var e := p + |PrintPiece(x)|;
      if rest != "" { FirstOf(y, e, rest); PiecesStart(xs[1..]); }
      ReadPiece(y, p, x);
      assert forall i | 0 <= i < |xs[1..]| :: xs[1..][i] == xs[i + 1];
      if Malformed(x.item) {
      } else if x.item.Q? {
        if !seen { ReadPieces(y, e, xs[1..], Milli(x.item.text), true); }
      } else {
        ReadPieces(y, e, xs[1..], q, seen);
      }
    }
  }

  lemma PiecesStart(xs: seq<Piece>)
    ensures PrintPieces(xs) != "" ==> PrintPieces(xs)[0] == ';'
  {}

  /** Left to right, the items state what the whole list states. */
  lemma {:induction false} MeaningIsStated(xs: seq<Piece>, q: int, seen: bool)
    ensures Meaning(xs, q, seen) ==
            if !WellFormed(xs) || (seen && exists i | 0 <= i < |xs| :: xs[i].item.Q?) then -1
            else if exists i | 0 <= i < |xs| :: xs[i].item.Q? then Stated(xs)
            else q
    decreases |xs|
  {
    hide IsQvalue, Milli;
    if xs != [] {
      var rest := xs[1..];
      assert forall i | 0 < i < |xs| :: xs[i] == rest[i - 1];
      assert forall i | 0 <= i < |rest| :: rest[i] == xs[i + 1];
      if xs[0].item.Q? && !Malformed(xs[0].item) {
        MeaningIsStated(rest, Milli(xs[0].item.text), true);
      } else {
        MeaningIsStated(rest, q, seen);
      }
    }
  }

  // ----- printed elements end where they were printed to end -----

  predicate HasQuotes(i: Item) {
    i.QuotedParam? || i.MixedParam?
  }

  predicate PlainChars(t: string) {
    forall k | 0 <= k < |t| :: t[k] != ',' && t[k] != '"'
  }

  lemma PlainJoin(a: string, b: string)
    requires PlainChars(a) && PlainChars(b)
    ensures PlainChars(a + b)
  {}

  lemma PlainKinds(x: Piece)
    requires PrintablePiece(x)
    ensures PlainChars(";") && PlainChars(x.lead) && PlainChars(x.trail) && PlainChars(NameOf(x.item)) && PlainChars("=")
    ensures x.item.MixedParam? ==> PlainChars(x.item.before) && PlainChars(x.item.after)
    ensures !HasQuotes(x.item) ==> PlainChars(ValueOf(x.item))
  {}

  lemma EmptyPlain()
    ensures PlainChars("")
  {}

  lemma PieceIsPlain(x: Piece)
    requires PrintablePiece(x) && !HasQuotes(x.item)
    ensures PlainChars(PrintPiece(x))
  {
    hide PlainChars, PrintablePiece, NameOf, ValueOf, HasQuotes;
    PlainKinds(x);
    PlainJoin(ValueOf(x.item), x.trail);
    PlainJoin(NameOf(x.item), ValueOf(x.item) + x.trail);
    PlainJoin(x.lead, NameOf(x.item) + (ValueOf(x.item) + x.trail));
    PlainJoin(";", x.lead + (NameOf(x.item) + (ValueOf(x.item) + x.trail)));
  }

  lemma PlainRun(y: string, p: nat, e: nat)
    requires p <= e <= |y| && forall k | p <= k < e :: y[k] != '"' && y[k] != ','
    ensures Run(y, p, e, Plain) == Plain && ElementEnd(y, p) == ElementEnd(y, e)
  {
    RunUnquoted(y, p, e);
    SameElement(y, p, e);
  }

  lemma {:induction false} PlainRunText(y: string, p: nat, t: string)
    requires At(y, p, t) && forall k | 0 <= k < |t| :: t[k] != '"' && t[k] != ','
    ensures Run(y, p, p + |t|, Plain) == Plain && ElementEnd(y, p) == ElementEnd(y, p + |t|)
  {
    forall k | p <= k < p + |t| ensures y[k] != '"' && y[k] != ',' { assert y[k] == y[p..p + |t|][k - p]; }
    PlainRun(y, p, p + |t|);
  }

  lemma PieceRun(y: string, p: nat, x: Piece)
    requires PrintablePiece(x) && At(y, p, PrintPiece(x))
    ensures Run(y, p, p + |PrintPiece(x)|, Plain) == Plain
    ensures ElementEnd(y, p) == ElementEnd(y, p + |PrintPiece(x)|)
  {
    hide Run, Cut, Escaped, PrintablePiece, PrintPiece, At, ElementEnd;
    if HasQuotes(x.item) {
      QuotedPieceParts(x);
      QuotedPieceRun(y, p, OpeningOf(x), x.item.raw, EndingOf(x), x);
    } else {
      PieceIsPlain(x);
      PlainRunText(y, p, PrintPiece(x));
    }
  }

  /** What stands before and after the quoted string of a parameter. */
  function OpeningOf(x: Piece): string
    requires HasQuotes(x.item)
  {
    ";" + (x.lead + (NameOf(x.item) + ("=" + if x.item.MixedParam? then x.item.before else "")))
  }

  function EndingOf(x: Piece): string
    requires HasQuotes(x.item)
  {
    (if x.item.MixedParam? then x.item.after else "") + x.trail
  }

  lemma QuotedPieceParts(x: Piece)
    requires PrintablePiece(x) && HasQuotes(x.item)
    ensures PrintPiece(x) == OpeningOf(x) + (("\"" + Escaped(x.item.raw) + "\"") + EndingOf(x))
    ensures PlainChars(OpeningOf(x)) && PlainChars(EndingOf(x))
  {
    hide Escaped, PlainChars, PrintablePiece, NameOf;
    PlainKinds(x);
    EmptyPlain();
    var b := if x.item.MixedParam? then x.item.before else "";
    PlainJoin("=", b);
    PlainJoin(NameOf(x.item), "=" + b);
    PlainJoin(x.lead, NameOf(x.item) + ("=" + b));
    PlainJoin(";", x.lead + (NameOf(x.item) + ("=" + b)));
    PlainJoin(if x.item.MixedParam? then x.item.after else "", x.trail);
  }

  lemma QuotedPieceRun(y: string, p: nat, head: string, raw: string, tail: string, x: Piece)
    requires At(y, p, PrintPiece(x)) && PrintPiece(x) == head + (("\"" + Escaped(raw) + "\"") + tail)
    requires PlainChars(head) && PlainChars(tail)
    ensures Run(y, p, p + |PrintPiece(x)|, Plain) == Plain
    ensures ElementEnd(y, p) == ElementEnd(y, p + |PrintPiece(x)|)
  {
    hide Run, Cut, Escaped, PrintPiece;
    var value := "\"" + Escaped(raw) + "\"";
    AtParts(y, p, head, value + tail);
    AtParts(y, p + |head|, value, tail);
    var a, b, e := p + |head|, p + |head| + |value|, p + |PrintPiece(x)|;
    PlainRunText(y, p, head);
    QuotedRun(y, a, raw, COMMA);
    PlainRunText(y, b, tail);
    RunSplit(y, p, a, e, Plain);
    RunSplit(y, a, b, e, Plain);
  }

  lemma {:induction false} PiecesRun(y: string, p: nat, xs: seq<Piece>)
    requires forall i | 0 <= i < |xs| :: PrintablePiece(xs[i])
    requires At(y, p, PrintPieces(xs))
    ensures Run(y, p, p + |PrintPieces(xs)|, Plain) == Plain
    ensures ElementEnd(y, p) == ElementEnd(y, p + |PrintPieces(xs)|)
    decreases |xs|
  {
    hide PrintPiece, PrintablePiece, ElementEnd;
    if xs != [] {
      AtParts(y, p, PrintPiece(xs[0]), PrintPieces(xs[1..]));
      var a := p + |PrintPiece(xs[0])|;
      PieceRun(y, p, xs[0]);
      PiecesRun(y, a, xs[1..]);
      RunSplit(y, p, a, p + |PrintPieces(xs)|, Plain);
    }
  }

  lemma ElementParts(e: Listed)
    ensures var x := PrintElement(e);
            && At(x, 0, e.name) && At(x, |e.name|, e.gap) && At(x, |e.name| + |e.gap|, PrintPieces(e.pieces))
            && |x| == |e.name| + |e.gap| + |PrintPieces(e.pieces)|
  {
    hide PrintPieces;
    var x, tail := PrintElement(e), PrintPieces(e.pieces);
    assert x == e.name + (e.gap + tail);
    AtParts(x, 0, e.name, e.gap + tail);
    AtParts(x, |e.name|, e.gap, tail);
  }

  /** Where the walker finds the name and the parameters of a printed element. */
  lemma ElementLayout(e: Listed)
    requires PrintableElement(e)
    ensures var x := PrintElement(e);
            && 0 < |x| && SkipOws(x, 0) == 0
            && Until(x, 0, NAME_STOPS) == |e.name| && x[..|e.name|] == e.name
            && SkipOws(x, |e.name|) == |e.name| + |e.gap|
            && AtDelimiter(x, |e.name| + |e.gap|)
  {
    hide PrintElement, PrintPieces, PrintablePiece, Until, SkipOws;
    var x, tail := PrintElement(e), PrintPieces(e.pieces);
    ElementParts(e);
    var a, m := |e.name|, |e.name| + |e.gap|;
    FirstOf(x, 0, e.name);
    PiecesStart(e.pieces);
    if tail != "" { FirstOf(x, m, tail); }
    BlankRun(x, a, e.gap);
    if e.gap != "" { FirstOf(x, a, e.gap); }
    TokenRun(x, 0, e.name, NAME_STOPS);
    assert x[0..a] == e.name;
  }

  lemma ElementRun(e: Listed)
    requires PrintableElement(e)
    ensures var x := PrintElement(e);
            Run(x, 0, |x|, Plain) == Plain && Closed(x) && ElementEnd(x, 0) == |x|
  {
    hide PrintPieces, PrintablePiece, Run, Cut;
    var x := PrintElement(e);
    ElementParts(e);
    var a, m := |e.name|, |e.name| + |e.gap|;
    PlainRunText(x, 0, e.name);
    PlainRunText(x, a, e.gap);
    PiecesRun(x, m, e.pieces);
    RunSplit(x, 0, a, |x|, Plain);
    RunSplit(x, a, m, |x|, Plain);
    RunIsModeAt(x, 0, |x|);
    EndsAtEnd(x);
  }

  lemma EndsAtEnd(x: string)
    ensures ElementEnd(x, |x|) == |x|
  {}

  /** A printed element, read alone, has the verdict it was printed to have. */
  lemma ReadElementAlone(e: Listed, coding: string)
    requires PrintableElement(e)
    ensures var x := PrintElement(e);
            && Weigh(x, 0) == Evaluation(Stated(e.pieces), false, false, false)
            && Judge(x, 0, coding) == Verdict(FormOf(e.name, coding), Stated(e.pieces))
  {
    hide PrintElement, PrintPieces, FormOf, Stated, PrintablePiece, Until, SkipOws, Params, IsPlainText;
    var x, m := PrintElement(e), |e.name| + |e.gap|;
    ElementParts(e);
    ElementLayout(e);
    ReadPieces(x, m, e.pieces, 1000, false);
    MeaningIsStated(e.pieces, 1000, false);
    NoPieces(e.pieces);
    PiecesStart(e.pieces);
    if e.pieces != [] { FirstOf(x, m, PrintPieces(e.pieces)); }
  }

  lemma NoPieces(xs: seq<Piece>)
    ensures PrintPieces(xs) == "" <==> xs == []
    ensures !(exists i | 0 <= i < |xs| :: xs[i].item.Q?) && WellFormed(xs) ==> Stated(xs) == 1000
    ensures !WellFormed(xs) ==> Stated(xs) == -1
  {}

  // ----- the round trip -----

  /** The list's meaning: each element's stated weight, a later well-formed occurrence winning. */
  ghost function ListMeaning(es: seq<Listed>, coding: string, w: Weights): Weights
    decreases |es|
  {
    if es == [] then w
    else ListMeaning(es[1..], coding, Apply(w, Verdict(FormOf(es[0].name, coding), Stated(es[0].pieces))))
  }

  lemma FoldElement(e: Listed, coding: string, w: Weights)
    requires PrintableElement(e)
    ensures var x := PrintElement(e);
            Clean(x) && Fold(x, 0, coding, w) == Apply(w, Verdict(FormOf(e.name, coding), Stated(e.pieces)))
  {
    hide PrintElement, FormOf, Stated, PrintableElement, Judge, Weigh, Apply, ElementEnd, SkipOws;
    ElementLayout(e);
    ElementRun(e);
    ReadElementAlone(e, coding);
  }

  lemma {:induction false} FoldPrinted(es: seq<Listed>, coding: string, w: Weights)
    requires forall i | 0 <= i < |es| :: PrintableElement(es[i])
    ensures Fold(PrintList(es), 0, coding, w) == ListMeaning(es, coding, w)
    decreases |es|
  {
    hide PrintElement, FormOf, Stated, PrintableElement, Apply, Fold, Clean;
    if es == [] {
      FoldAtEnd("", coding, w);
      assert PrintList(es) == "";
    } else {
      var xs := PrintElements(es);
      FoldElement(es[0], coding, w);
      var w' := Apply(w, Verdict(FormOf(es[0].name, coding), Stated(es[0].pieces)));
      FoldPrinted(es[1..], coding, w');
      assert xs[1..] == PrintElements(es[1..]);
      if |es| > 1 {
        FieldValueOfPair(xs[0], Join(xs[1..]), coding, w);
      } else {
        assert ListMeaning(es[1..], coding, w') == w';
      }
    }
  }

  /** Walking a printed list gives back exactly the weights it was printed from. */
  lemma WalkOfPrinted(es: seq<Listed>, coding: string)
    requires forall i | 0 <= i < |es| :: PrintableElement(es[i])
    ensures FieldValue(PrintList(es), coding) == ListMeaning(es, coding, NONE)
  {
    FoldPrinted(es, coding, NONE);
  }

  /** Every weight in 0..1000 can be stated. */
  lemma EveryWeightHasASpelling(q: int) returns (text: string)
    requires 0 <= q <= 1000
    ensures IsQvalue(text) && Milli(text) == q && IsPlainText(text)
  {
    if q == 1000 { return "1"; }
    text := ['0', '.', ('0' as int + q / 100) as char, ('0' as int + q / 10 % 10) as char, ('0' as int + q % 10) as char];
    assert q == 100 * (q / 100) + 10 * (q / 10 % 10) + q % 10;
  }

  /** `i` is the last element of the list that names `coding` and is well formed. */
  ghost predicate LastNaming(es: seq<Listed>, coding: string, i: nat) {
    && i < |es| && SameName(es[i].name, coding) && Stated(es[i].pieces) >= 0
    && forall j | i < j < |es| :: !(SameName(es[j].name, coding) && Stated(es[j].pieces) >= 0)
  }

  lemma {:induction false} MeaningOfLast(es: seq<Listed>, coding: string, w: Weights, i: nat)
    requires LastNaming(es, coding, i)
    ensures ListMeaning(es, coding, w).explicit == Stated(es[i].pieces)
    decreases |es|
  {
    hide SameName, Stated;
    var w' := Apply(w, Verdict(FormOf(es[0].name, coding), Stated(es[0].pieces)));
    assert forall j | 0 <= j < |es[1..]| :: es[1..][j] == es[j + 1];
    if i == 0 {
      NoneNaming(es[1..], coding, w');
    } else {
      MeaningOfLast(es[1..], coding, w', i - 1);
    }
  }

  lemma {:induction false} NoneNaming(es: seq<Listed>, coding: string, w: Weights)
    requires forall j | 0 <= j < |es| :: !(SameName(es[j].name, coding) && Stated(es[j].pieces) >= 0)
    ensures ListMeaning(es, coding, w).explicit == w.explicit
    decreases |es|
  {
    hide SameName, Stated;
    if es != [] {
      assert forall j | 0 <= j < |es[1..]| :: es[1..][j] == es[j + 1];
      NoneNaming(es[1..], coding, Apply(w, Verdict(FormOf(es[0].name, coding), Stated(es[0].pieces))));
    }
  }

  /** The round trip, in one sentence: the last well-formed mention of the coding decides. */
  lemma LastMentionDecides(es: seq<Listed>, coding: string, wildcard: bool, i: nat)
    requires (forall j | 0 <= j < |es| :: PrintableElement(es[j])) && LastNaming(es, coding, i)
    ensures CodingWeightOf(PrintList(es), coding, wildcard) == Stated(es[i].pieces)
  {
    hide Stated, LastNaming, PrintList, PrintableElement, FieldValue;
    WalkOfPrinted(es, coding);
    MeaningOfLast(es, coding, NONE, i);
    LastIsWellFormed(es, coding, i);
  }

  /** `i` is the last well-formed "*" of a list without a well-formed mention of `coding`. */
  ghost predicate LastStar(es: seq<Listed>, coding: string, i: nat) {
    && i < |es| && es[i].name == "*" && Stated(es[i].pieces) >= 0
    && (forall j | 0 <= j < |es| :: !(SameName(es[j].name, coding) && Stated(es[j].pieces) >= 0))
    && forall j | i < j < |es| :: !(es[j].name == "*" && Stated(es[j].pieces) >= 0)
  }

  lemma {:induction false} MeaningOfStar(es: seq<Listed>, coding: string, w: Weights, i: nat)
    requires LastStar(es, coding, i)
    ensures ListMeaning(es, coding, w).star == Stated(es[i].pieces) && ListMeaning(es, coding, w).explicit == w.explicit
    decreases |es|
  {
    hide SameName, Stated;
    var w' := Apply(w, Verdict(FormOf(es[0].name, coding), Stated(es[0].pieces)));
    assert forall j | 0 <= j < |es[1..]| :: es[1..][j] == es[j + 1];
    if i == 0 {
      NoneNaming(es[1..], coding, w');
      NoStar(es[1..], coding, w');
    } else {
      MeaningOfStar(es[1..], coding, w', i - 1);
    }
  }

  lemma {:induction false} NoStar(es: seq<Listed>, coding: string, w: Weights)
    requires forall j | 0 <= j < |es| :: !(es[j].name == "*" && Stated(es[j].pieces) >= 0)
    ensures ListMeaning(es, coding, w).star == w.star
    decreases |es|
  {
    hide SameName, Stated;
    if es != [] {
      assert forall j | 0 <= j < |es[1..]| :: es[1..][j] == es[j + 1];
      NoStar(es[1..], coding, Apply(w, Verdict(FormOf(es[0].name, coding), Stated(es[0].pieces))));
    }
  }

  /** Without a well-formed mention of the coding the last well-formed "*" decides, where it counts. */
  lemma LastStarDecides(es: seq<Listed>, coding: string, wildcard: bool, i: nat)
    requires (forall j | 0 <= j < |es| :: PrintableElement(es[j])) && LastStar(es, coding, i)
    ensures CodingWeightOf(PrintList(es), coding, wildcard) == if wildcard then Stated(es[i].pieces) else -1
  {
    hide Stated, PrintList, PrintableElement, FieldValue;
    WalkOfPrinted(es, coding);
    MeaningOfStar(es, coding, NONE, i);
  }

  /** A list that names neither the coding nor "*" in a well-formed way leaves it unlisted. */
  lemma UnlistedIsUnlisted(es: seq<Listed>, coding: string, wildcard: bool)
    requires forall j | 0 <= j < |es| :: PrintableElement(es[j])
    requires forall j | 0 <= j < |es| :: (SameName(es[j].name, coding) || es[j].name == "*") ==> !WellFormed(es[j].pieces)
    ensures CodingWeightOf(PrintList(es), coding, wildcard) == -1
  {
    hide PrintList, PrintableElement, FieldValue;
    WalkOfPrinted(es, coding);
    NoneNaming(es, coding, NONE);
    NoStar(es, coding, NONE);
  }

  lemma LastIsWellFormed(es: seq<Listed>, coding: string, i: nat)
    requires LastNaming(es, coding, i)
    ensures i < |es| && 0 <= Stated(es[i].pieces)
  {}

  /** Malformed mentions never contribute: with no well-formed one, the coding stays unlisted. */
  lemma MalformedNeverContributes(es: seq<Listed>, coding: string)
    requires forall j | 0 <= j < |es| :: PrintableElement(es[j])
    requires forall j | 0 <= j < |es| :: SameName(es[j].name, coding) ==> !WellFormed(es[j].pieces)
    ensures CodingWeightOf(PrintList(es), coding, false) == -1
  {
    hide PrintList, PrintableElement, FieldValue;
    WalkOfPrinted(es, coding);
    NoneNaming(es, coding, NONE);
  }

  // ----- junk after a coding name -----

  /** Something after a name, or a quote at it or in its place, where only ';' or ',' may follow. */
  predicate IsStray(name: string, gap: string, junk: string) {
    && IsPlainText(name) && IsBlank(gap) && (name == "" ==> gap == "")
    && junk != "" && junk[0] !in {' ', '\t', ';', ','} && (gap == "" ==> junk[0] == '"')
    && ',' !in junk && Closed(junk)
  }

  lemma StrayText(name: string, gap: string, junk: string)
    requires IsStray(name, gap, junk)
    ensures var x, m := name + (gap + junk), |name| + |gap|;
            && x[m..] == junk && m < |x| && x[m] == junk[0] && At(x, 0, name) && At(x, |name|, gap)
            && (x[0] != ' ' && x[0] != '\t') && (|name| == m ==> x[m] == '"') && (|name| < m ==> x[|name|] in {' ', '\t'})
            && forall k | 0 <= k < m :: x[k] != '"' && x[k] != ','
  {}

  lemma StrayScans(name: string, gap: string, junk: string)
    requires IsStray(name, gap, junk)
    ensures var x, m := name + (gap + junk), |name| + |gap|;
            && Until(x, 0, NAME_STOPS) == |name| && SkipOws(x, |name|) == m && SkipOws(x, 0) == 0
            && m < |x| && x[m] == junk[0] && x[m..] == junk
            && forall k | 0 <= k < m :: x[k] != '"' && x[k] != ','
  {
    hide At;
    var x := name + (gap + junk);
    StrayText(name, gap, junk);
    TokenRun(x, 0, name, NAME_STOPS);
    BlankRun(x, |name|, gap);
  }

  lemma StrayRun(name: string, gap: string, junk: string)
    requires IsStray(name, gap, junk)
    ensures var x := name + (gap + junk); Closed(x) && ElementEnd(x, 0) == |x|
  {
    hide Cut, Until, SkipOws, IsPlainText, IsBlank, Run, ModeAt;
    var x, m := name + (gap + junk), |name| + |gap|;
    StrayScans(name, gap, junk);
    StartsPlain(x);
    StartsPlain(junk);
    PlainStretch(x, 0, m, COMMA);
    RunIsModeAt(x, 0, |x|);
    RunIsModeAt(junk, 0, |junk|);
    RunSplit(x, 0, m, |x|, Plain);
    SuffixRun(x, m, |junk|, Plain);
    assert ModeAt(x, |x|) == ModeAt(junk, |junk|);
    forall k | 0 <= k < |x| ensures x[k] != ',' {
      if k >= m { assert x[k] == junk[k - m]; }
    }
  }

  lemma StartsPlain(s: string)
    ensures ModeAt(s, 0) == Plain
  {}

  lemma {:induction false} SuffixRun(x: string, m: nat, n: nat, mode: Mode)
    requires m + n == |x|
    ensures Run(x, m, |x|, mode) == Run(x[m..], 0, n, mode)
    decreases n
  {
    if n > 0 {
      SuffixRun(x, m + 1, n - 1, Step(mode, x[m]));
      DropRun(x[m..], n - 1, Step(mode, x[m]));
      assert x[m..][1..] == x[m + 1..];
    }
  }

  lemma {:induction false} DropRun(t: string, n: nat, mode: Mode)
    requires |t| == n + 1
    ensures Run(t, 1, |t|, mode) == Run(t[1..], 0, n, mode)
  {
    DropRunFrom(t, 0, mode);
  }

  lemma {:induction false} DropRunFrom(t: string, i: nat, mode: Mode)
    requires i < |t|
    ensures Run(t, i + 1, |t|, mode) == Run(t[1..], i, |t| - 1, mode)
    decreases |t| - i
  {
    if i + 1 < |t| { DropRunFrom(t, i + 1, Step(mode, t[i + 1])); }
  }

  /** Such an element says nothing, whatever stands before it and after it. */
  lemma StrayElementSaysNothing(name: string, gap: string, junk: string, coding: string, w: Weights)
    requires IsStray(name, gap, junk)
    ensures var x := name + (gap + junk);
            && Clean(x) && Fold(x, 0, coding, w) == w
            && (forall z: string :: Fold(x + "," + z, 0, coding, w) == Fold(z, 0, coding, w))
            && (forall y: string | Clean(y) :: Fold(y + "," + x, 0, coding, w) == Fold(y, 0, coding, w))
  {
    hide Cut, Until, SkipOws, IsPlainText, IsBlank, Closed, FormOf, ElementEnd, Params;
    var x := name + (gap + junk);
    StrayScans(name, gap, junk);
    StrayRun(name, gap, junk);
    forall v: Weights ensures Clean(x) && Fold(x, 0, coding, v) == v {
      StrayVerdict(name, gap, junk, coding, v);
    }
    forall z: string ensures Fold(x + "," + z, 0, coding, w) == Fold(z, 0, coding, w) { FieldValueOfPair(x, z, coding, w); }
    forall y: string | Clean(y) ensures Fold(y + "," + x, 0, coding, w) == Fold(y, 0, coding, w) { FieldValueOfPair(y, x, coding, w); }
  }

  lemma StrayVerdict(name: string, gap: string, junk: string, coding: string, w: Weights)
    requires IsStray(name, gap, junk)
    ensures var x := name + (gap + junk); Clean(x) && Fold(x, 0, coding, w) == w
  {
    hide Cut, Until, SkipOws, IsPlainText, IsBlank, Closed, FormOf, ElementEnd, Params;
    StrayScans(name, gap, junk);
    StrayRun(name, gap, junk);
  }
}
