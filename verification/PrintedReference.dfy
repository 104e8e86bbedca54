/**
 On which printed lists the reference parser answers: exactly those whose elements it understands.
 */
module PrintedReference {
  import opened Text
  import opened AcceptEncoding
  import opened Reference
  import opened RoundTrip

  // ----- what the reference understands -----

  /** Quoted text that is printed without a backslash. */
  predicate Simple(raw: string) {
    '"' !in raw && '\\' !in raw
  }

  predicate NoQuotes(xs: seq<Piece>) {
    forall i | 0 <= i < |xs| :: !HasQuotes(xs[i].item)
  }

  /**
   Parameters it has no doubt about: one well-formed weight at most, values of one token or of one
   quoted string without escapes, no junk, and no quotes after an empty parameter.
   */
  predicate SurePieces(xs: seq<Piece>, seen: bool) {
    xs == [] ||
    match xs[0].item
    case Empty => NoQuotes(xs[1..])
    case BareQ(_) => false
    case Q(_, text) => !seen && IsQvalue(text) && SurePieces(xs[1..], true)
    case QuotedParam(_, raw) => Simple(raw) && SurePieces(xs[1..], seen)
    case Flag(_) => SurePieces(xs[1..], seen)
    case TokenParam(_, _) => SurePieces(xs[1..], seen)
    case _ => false
  }

  /** A value of one token or one quoted string without escapes, or no value. */
  predicate OneValue(i: Item) {
    !i.LooseParam? && !i.MixedParam? && (i.QuotedParam? ==> Simple(i.raw))
  }

  predicate AllToken(name: string) {
    forall k | 0 <= k < |name| :: IsTokenChar(name[k])
  }

  /** An element: a token and such parameters, or a name that only starts as a token and no quotes. */
  predicate SureElement(e: Listed) {
    e.name != "" && IsTokenChar(e.name[0]) &&
    if AllToken(e.name) then SurePieces(e.pieces, false) else NoQuotes(e.pieces)
  }

  /** Well-formed parameters with simple quoted values are understood. */
  lemma {:induction false} WellFormedIsSure(xs: seq<Piece>, seen: bool)
    requires WellFormed(xs) && forall i | 0 <= i < |xs| :: OneValue(xs[i].item)
    requires seen ==> forall i | 0 <= i < |xs| :: !xs[i].item.Q?
    ensures SurePieces(xs, seen)
    decreases |xs|
  {
    hide IsQvalue;
    if xs != [] {
      var rest := xs[1..];
      assert forall i | 0 <= i < |rest| :: rest[i] == xs[i + 1];
      if xs[0].item.Q? {
        forall i | 0 <= i < |rest| ensures !rest[i].item.Q? { assert rest[i] == xs[i + 1] && xs[0].item.Q?; }
      }
      WellFormedIsSure(rest, seen || xs[0].item.Q?);
    }
  }

  // ----- values -----

  lemma {:induction false} FractionOf(y: string, p: nat, n: nat, q: int, scale: int, k: nat)
    requires k <= 3 && scale == PowerOfTen(k) && n <= 3 - k && p + n <= |y|
    requires (forall i | p <= i < p + n :: IsDigit(y[i])) && (p + n == |y| || !IsDigit(y[p + n]))
    ensures Fraction(y, p, q, scale).next == p + n
    decreases n
  {
    if n > 0 { FractionOf(y, p + 1, n - 1, q + (y[p] as int - '0' as int) * scale, scale / 10, k + 1); }
  }

  lemma {:induction false} ZerosOf(y: string, p: nat, n: nat, k: int)
    requires 0 <= k && n <= 3 - k && p + n <= |y|
    requires (forall i | p <= i < p + n :: y[i] == '0') && (p + n == |y| || y[p + n] != '0')
    ensures Zeros(y, p, k) == p + n
    decreases n
  {
    if n > 0 { ZerosOf(y, p + 1, n - 1, k + 1); }
  }

  /** A printed qvalue is read as the weight it is. */
  lemma QvalueIsRead(y: string, v: nat, text: string)
    requires At(y, v, text) && IsQvalue(text) && (v + |text| == |y| || y[v + |text|] in QVALUE_STOPS)
    ensures RefQvalue(y, v) == Number(Milli(text), v + |text|)
  {
    assert forall k | 0 <= k < |text| :: y[v + k] == text[k] by {
      forall k | 0 <= k < |text| ensures y[v + k] == text[k] { assert y[v..v + |text|][k] == y[v + k]; }
    }
    var n := |text|;
    if n > 1 {
      assert y[v + 1] == '.';
      forall i | v + 2 <= i < v + n ensures y[i] == text[i - v] { assert y[v + (i - v)] == text[i - v]; }
      if text[0] == '0' {
        FractionOf(y, v + 2, n - 2, 0, 100, 0);
        FractionShape(y, v + 2, 0, 100, 0);
      } else {
        ZerosOf(y, v + 2, n - 2, 0);
      }
    }
    assert RefQvalue(y, v).next == v + n && RefQvalue(y, v).q != UNSURE;
    QvalueAgrees(y, v);
  }

  /** A quoted value is read exactly when nothing in it is escaped. */
  lemma {:induction false} QuotedIsRead(y: string, p: nat, raw: string)
    requires At(y, p, Escaped(raw) + "\"")
    ensures SimpleQuotedEnd(y, p) == if Simple(raw) then p + |raw| + 1 else UNSURE
    decreases |raw|
  {
    if raw == [] {
      assert Escaped(raw) + "\"" == "\"";
      FirstOf(y, p, "\"");
    } else {
      var rest := Escaped(raw[1..]) + "\"";
      assert Simple(raw) <==> raw[0] != '"' && raw[0] != '\\' && Simple(raw[1..]) by {
        assert raw == [raw[0]] + raw[1..];
      }
      FirstOf(y, p, Escaped(raw) + "\"");
      if raw[0] != '"' && raw[0] != '\\' {
        assert Escaped(raw) + "\"" == [raw[0]] + rest;
        AtParts(y, p, [raw[0]], rest);
        QuotedIsRead(y, p + 1, raw[1..]);
      }
    }
  }

  /** After a value and its trailing whitespace the reference goes on with the next parameter. */
  lemma NextOf(y: string, p: nat, trail: string, q: int, seen: bool)
    requires At(y, p, trail) && IsBlank(trail) && AtDelimiter(y, p + |trail|)
    ensures RefNext(y, p, q, seen) == RefParams(y, p + |trail|, q, seen)
  {
    hide At, IsBlank, SkipOws, Until, RefAfterName, JunkEnd;
    BlankRun(y, p, trail);
  }

  // ----- one parameter -----

  lemma NoMoreParams(y: string, p: nat, q: int, seen: bool)
    requires p <= |y|
    ensures p == |y| || y[p] != ';' ==> RefParams(y, p, q, seen) == Sure(true, q, p)
  {}

  lemma ValuelessOf(y: string, p: nat, trail: string, isQ: bool, q: int, seen: bool)
    requires At(y, p, trail) && IsBlank(trail) && AtDelimiter(y, p + |trail|)
    ensures RefAfterName(y, p, isQ, q, seen) == if isQ then Unsure else RefParams(y, p + |trail|, q, seen)
  {
    hide RefParams, RefQvalue, RefValueEnd, SkipOws, Until, IsBlank;
    BlankRun(y, p, trail);
    NoMoreParams(y, p + |trail|, q, seen);
  }

  /** Where a printed value starts, and what ends it. */
  lemma ValuePlace(y: string, p: nat, text: string, trail: string)
    requires At(y, p, "=" + (text + trail)) && IsBlank(trail) && AtDelimiter(y, p + 1 + |text| + |trail|)
    requires text != "" ==> !IsOws(text[0])
    ensures At(y, p + 1, text) && At(y, p + 1 + |text|, trail) && p < |y| && y[p] == '=' && SkipOws(y, p) == p
    ensures SkipOws(y, p + 1) == if text == "" then p + 1 + |trail| else p + 1
    ensures p + 1 + |text| == |y| || y[p + 1 + |text|] in QVALUE_STOPS
  {
    AtParts(y, p, "=", text + trail);
    AtParts(y, p + 1, text, trail);
    FirstOf(y, p, "=");
    if text == "" { BlankRun(y, p + 1, trail); } else { FirstOf(y, p + 1, text); }
    if trail != "" { FirstOf(y, p + 1 + |text|, trail); }
  }

  lemma WeightOf(y: string, p: nat, text: string, trail: string, q: int, seen: bool)
    requires At(y, p, "=" + (text + trail)) && IsPlainText(text) && IsBlank(trail) && AtDelimiter(y, p + 1 + |text| + |trail|)
    ensures var r := RefAfterName(y, p, true, q, seen);
            if !seen && IsQvalue(text) then r == RefParams(y, p + 1 + |text| + |trail|, Milli(text), true) else !Confident(y, r)
  {
    hide IsQvalue, Milli, RefQvalue, RefParams, SkipOws, Until, RefNext, RefAfterName, At, AtDelimiter, IsPlainText, IsBlank, Confident;
    PlainStart(text);
    ValuePlace(y, p, text, trail);
    if !seen && IsQvalue(text) {
      EmptyIsNoQvalue();
      QvalueIsRead(y, p + 1, text);
      MilliSure(text);
      WeightStep(y, p, q);
      NextOf(y, p + 1 + |text|, trail, Milli(text), true);
    } else if Confident(y, RefAfterName(y, p, true, q, seen)) {
      ReadQ(y, p, text, trail);
      NotConfident(y, p, true, q, seen, IsQvalue(text));
    }
  }

  lemma WeightStep(y: string, p: nat, q: int)
    requires p < |y| && y[p] == '=' && SkipOws(y, p) == p
    ensures var n := RefQvalue(y, SkipOws(y, p + 1));
            RefAfterName(y, p, true, q, false) == if n.q == UNSURE then Unsure else RefNext(y, n.next, n.q, true)
  {
    hide RefQvalue, RefNext, RefParams;
  }

  /** On a second or malformed weight the reference does not answer. */
  lemma NotConfident(y: string, p: nat, isQ: bool, q: int, seen: bool, wellFormed: bool)
    requires p <= |y| && (if wellFormed then seen && AfterName(y, p, isQ, false).Weight? else AfterName(y, p, isQ, false).Bad?)
    ensures !Confident(y, RefAfterName(y, p, isQ, q, seen))
  {
    hide RefAfterName, AfterName, RefParams;
    if Confident(y, RefAfterName(y, p, isQ, q, seen)) { AfterNameAgrees(y, p, isQ, q, seen); }
  }

  lemma MilliSure(text: string)
    requires IsQvalue(text)
    ensures Milli(text) != UNSURE
  {}

  lemma ValueStep(y: string, p: nat, q: int, seen: bool)
    requires p < |y| && y[p] == '=' && SkipOws(y, p) == p
    ensures var w := RefValueEnd(y, SkipOws(y, p + 1));
            RefAfterName(y, p, false, q, seen) == if w == UNSURE then Unsure else RefNext(y, w, q, seen)
  {
    hide RefValueEnd, RefNext, RefParams;
  }

  /** A token value, read to its end. */
  lemma TokenRead(y: string, v: nat, text: string)
    requires At(y, v, text) && IsPlainText(text) && (v + |text| == |y| || y[v + |text|] in QVALUE_STOPS)
    ensures RefValueEnd(y, v) == v + |text|
  {
    if text != "" { FirstOf(y, v, text); }
    TokenRun(y, v, text, REF_VALUE_STOPS);
  }

  lemma TokenOf(y: string, p: nat, text: string, trail: string, q: int, seen: bool)
    requires At(y, p, "=" + (text + trail)) && IsPlainText(text) && IsBlank(trail) && AtDelimiter(y, p + 1 + |text| + |trail|)
    ensures RefAfterName(y, p, false, q, seen) == RefParams(y, p + 1 + |text| + |trail|, q, seen)
  {
    hide RefAfterName, RefParams, SkipOws, Until, RefNext, RefValueEnd, IsPlainText, IsBlank, At, AtDelimiter;
    PlainStart(text);
    ValuePlace(y, p, text, trail);
    ValueStep(y, p, q, seen);
    var e := p + 1 + |text| + |trail|;
    if text == "" {
      DelimiterEnds(y, e);
      TokenRead(y, e, "");
      NextOf(y, e, "", q, seen);
    } else {
      TokenRead(y, p + 1, text);
      NextOf(y, p + 1 + |text|, trail, q, seen);
    }
  }

  lemma DelimiterEnds(y: string, e: nat)
    requires e <= |y| && AtDelimiter(y, e)
    ensures At(y, e, "") && (e == |y| || y[e] in QVALUE_STOPS)
  {}

  lemma PlainStart(text: string)
    ensures IsPlainText(text) && text != "" ==> !IsOws(text[0])
    ensures IsPlainText("") && IsBlank("")
  {}

  /** A quoted value, read to its end or given up. */
  lemma QuotedRead(y: string, v: nat, raw: string)
    requires At(y, v, "\"" + Escaped(raw) + "\"")
    ensures RefValueEnd(y, v) == if Simple(raw) then v + 2 + |Escaped(raw)| else UNSURE
  {
    hide Simple, Escaped, SimpleQuotedEnd, Until;
    assert "\"" + Escaped(raw) + "\"" == "\"" + (Escaped(raw) + "\"");
    AtParts(y, v, "\"", Escaped(raw) + "\"");
    FirstOf(y, v, "\"");
    QuotedIsRead(y, v + 1, raw);
    if Simple(raw) { SimpleUnescaped(raw); }
  }

  lemma QuotedOf(y: string, p: nat, raw: string, trail: string, q: int, seen: bool)
    requires At(y, p, "=" + (("\"" + Escaped(raw) + "\"") + trail)) && IsBlank(trail)
    requires AtDelimiter(y, p + 3 + |Escaped(raw)| + |trail|)
    ensures RefAfterName(y, p, false, q, seen) ==
            if Simple(raw) then RefParams(y, p + 3 + |Escaped(raw)| + |trail|, q, seen) else Unsure
  {
    hide RefAfterName, RefParams, SkipOws, Until, RefNext, RefValueEnd, Simple, Escaped, IsBlank, At, AtDelimiter;
    var value := "\"" + Escaped(raw) + "\"";
    ValuePlace(y, p, value, trail);
    ValueStep(y, p, q, seen);
    QuotedRead(y, p + 1, raw);
    if Simple(raw) { NextOf(y, p + 1 + |value|, trail, q, seen); }
  }

  lemma {:induction false} SimpleUnescaped(raw: string)
    requires Simple(raw)
    ensures Escaped(raw) == raw
    decreases |raw|
  {
    if raw != [] {
      assert raw == [raw[0]] + raw[1..];
      SimpleUnescaped(raw[1..]);
    }
  }

  /** What the reference does with a printed parameter. */
  ghost predicate Handles(y: string, e: nat, i: Item, q: int, seen: bool, r: RefResult)
    requires e <= |y|
  {
    match i
    case Empty => r == var j := JunkEnd(y, e); if j == UNSURE then Unsure else Sure(false, q, j)
    case BareQ(_) => r == Unsure
    case Q(_, text) => if !seen && IsQvalue(text) then r == RefParams(y, e, Milli(text), true) else !Confident(y, r)
    case QuotedParam(_, raw) => r == if Simple(raw) then RefParams(y, e, q, seen) else Unsure
    case Flag(_) => r == RefParams(y, e, q, seen)
    case TokenParam(_, _) => r == RefParams(y, e, q, seen)
    case _ => !Confident(y, r)
  }

  /** More after a token value is given up on. */
  lemma LooseOf(y: string, p: nat, text: string, gap: string, more: string, q: int, seen: bool)
    requires At(y, p, "=" + (text + (gap + more))) && IsPlainText(text) && text != "" && IsGap(gap)
    requires more != "" && more[0] !in {' ', '\t', ';', ','}
    ensures RefAfterName(y, p, false, q, seen) == Unsure
  {
    hide RefAfterName, RefParams, SkipOws, Until, RefValueEnd, IsPlainText, At, AtDelimiter;
    AtParts(y, p, "=", text + (gap + more));
    AtParts(y, p + 1, text, gap + more);
    AtParts(y, p + 1 + |text|, gap, more);
    FirstOf(y, p, "=");
    FirstOf(y, p + 1, text);
    FirstOf(y, p + 1 + |text|, gap);
    FirstOf(y, p + 1 + |text| + |gap|, more);
    PlainStart(text);
    SkipNothing(y, p);
    SkipNothing(y, p + 1);
    TokenRead(y, p + 1, text);
    BlankRun(y, p + 1 + |text|, gap);
    ValueStep(y, p, q, seen);
  }

  lemma SkipNothing(y: string, p: nat)
    requires p < |y| && !IsOws(y[p])
    ensures SkipOws(y, p) == p
  {}

  /** So is anything before or after a quoted string. */
  lemma MixedOf(y: string, p: nat, before: string, raw: string, tail: string, q: int, seen: bool)
    requires At(y, p, "=" + (before + (("\"" + Escaped(raw) + "\"") + tail))) && IsPlainText(before)
    requires before == "" ==> tail != "" && tail[0] !in {' ', '\t', ';', ','}
    ensures RefAfterName(y, p, false, q, seen) == Unsure
  {
    hide RefAfterName, RefParams, SkipOws, Until, RefValueEnd, IsPlainText, At, Escaped, Simple;
    var value := "\"" + Escaped(raw) + "\"";
    AtParts(y, p, "=", before + (value + tail));
    AtParts(y, p + 1, before, value + tail);
    AtParts(y, p + 1 + |before|, value, tail);
    FirstOf(y, p, "=");
    SkipNothing(y, p);
    var a := p + 1 + |before|;
    FirstOf(y, a, value);
    SkipNothing(y, a);
    ValueStep(y, p, q, seen);
    if before != "" {
      PlainStart(before);
      FirstOf(y, p + 1, before);
      SkipNothing(y, p + 1);
      TokenToQuote(y, p + 1, before);
    } else {
      QuotedRead(y, a, raw);
      FirstOf(y, a + |value|, tail);
      SkipNothing(y, a + |value|);
    }
  }

  lemma TokenToQuote(y: string, v: nat, text: string)
    requires At(y, v, text) && IsPlainText(text) && text != "" && v + |text| < |y| && y[v + |text|] == '"'
    ensures RefValueEnd(y, v) == v + |text|
  {
    FirstOf(y, v, text);
    TokenRun(y, v, text, REF_VALUE_STOPS);
  }

  lemma HandlesValueless(y: string, p: nat, x: Piece, q: int, seen: bool)
    requires PrintablePiece(x) && (x.item.BareQ? || x.item.Flag?) && At(y, p, ValueOf(x.item) + x.trail)
    requires AtDelimiter(y, p + |ValueOf(x.item) + x.trail|)
    ensures Handles(y, p + |ValueOf(x.item) + x.trail|, x.item, q, seen, RefAfterName(y, p, IsQ(NameOf(x.item)), q, seen))
  {
    hide RefAfterName, RefParams, At, IsPlainText, IsBlank, AtDelimiter;
    assert ValueOf(x.item) + x.trail == x.trail;
    ValuelessOf(y, p, x.trail, x.item.BareQ?, q, seen);
  }

  lemma HandlesOdd(y: string, p: nat, x: Piece, q: int, seen: bool)
    requires PrintablePiece(x) && At(y, p, ValueOf(x.item) + x.trail)
    requires x.item.LooseParam? || x.item.MixedParam?
    ensures !Confident(y, RefAfterName(y, p, IsQ(NameOf(x.item)), q, seen))
  {
    hide RefAfterName, RefParams, Escaped, At, IsPlainText, IsBlank, Confident, ValueOf;
    OddTextIs(x);
    UnsureIsNot(y);
    match x.item
    case LooseParam(_, text, gap, more) => LooseOf(y, p, text, gap, more + x.trail, q, seen);
    case MixedParam(_, before, raw, after) => MixedOf(y, p, before, raw, after + x.trail, q, seen);
  }

  lemma HandlesAfterName(y: string, p: nat, x: Piece, q: int, seen: bool)
    requires PrintablePiece(x) && !x.item.Empty? && At(y, p, ValueOf(x.item) + x.trail)
    requires AtDelimiter(y, p + |ValueOf(x.item) + x.trail|)
    ensures Handles(y, p + |ValueOf(x.item) + x.trail|, x.item, q, seen, RefAfterName(y, p, IsQ(NameOf(x.item)), q, seen))
  {
    hide RefAfterName, RefParams, Escaped, IsQvalue, Milli, At, IsPlainText, IsBlank, AtDelimiter, Simple, Confident, JunkEnd;
    match x.item
    case Q(_, text) =>
      assert ValueOf(x.item) + x.trail == "=" + (text + x.trail);
      WeightOf(y, p, text, x.trail, q, seen);
    case TokenParam(name, text) =>
      assert ValueOf(x.item) + x.trail == "=" + (text + x.trail);
      TokenOf(y, p, text, x.trail, q, seen);
    case QuotedParam(name, raw) =>
      assert ValueOf(x.item) + x.trail == "=" + (("\"" + Escaped(raw) + "\"") + x.trail);
      QuotedOf(y, p, raw, x.trail, q, seen);
    case LooseParam(_, _, _, _) => HandlesOdd(y, p, x, q, seen);
    case MixedParam(_, _, _, _) => HandlesOdd(y, p, x, q, seen);
    case BareQ(_) => HandlesValueless(y, p, x, q, seen);
    case Flag(_) => HandlesValueless(y, p, x, q, seen);
    case _ =>
      ReadAfterName(y, p, x);
      NotConfident(y, p, IsQ(NameOf(x.item)), q, seen, false);
  }

  lemma UnsureIsNot(y: string)
    ensures !Confident(y, Unsure)
  {}

  lemma RefNamed(y: string, p: nat, b: nat, name: string, q: int, seen: bool)
    requires p < |y| && y[p] == ';' && b <= |y| && At(y, b, name) && name != "" && SkipOws(y, p + 1) == b
    requires Until(y, b, REF_PARAM_STOPS) == b + |name|
    ensures RefParams(y, p, q, seen) == RefAfterName(y, b + |name|, IsQ(name), q, seen)
  {
    hide RefAfterName, JunkEnd;
  }

  lemma HandlesPiece(y: string, p: nat, x: Piece, q: int, seen: bool)
    requires PrintablePiece(x) && At(y, p, PrintPiece(x)) && AtDelimiter(y, p + |PrintPiece(x)|)
    ensures Handles(y, p + |PrintPiece(x)|, x.item, q, seen, RefParams(y, p, q, seen))
  {
    hide RefAfterName, NameOf, ValueOf, Until, SkipOws, Printable, PrintPiece, PrintablePiece, IsQ, Handles, RefParams;
    PieceParts(y, p, x);
    if x.item.Empty? {
      HandlesEmpty(y, p, x, q, seen);
    } else {
      PieceScans(y, p, x);
      NamesArePlain(x);
      var b, name := p + 1 + |x.lead|, NameOf(x.item);
      ValueStart(y, b + |name|, x);
      TokenRun(y, b, name, REF_PARAM_STOPS);
      RefNamed(y, p, b, name, q, seen);
      HandlesAfterName(y, b + |name|, x, q, seen);
    }
  }

  lemma HandlesEmpty(y: string, p: nat, x: Piece, q: int, seen: bool)
    requires PrintablePiece(x) && x.item.Empty? && At(y, p, PrintPiece(x)) && AtDelimiter(y, p + |PrintPiece(x)|)
    requires p < |y| && y[p] == ';'
    ensures Handles(y, p + |PrintPiece(x)|, x.item, q, seen, RefParams(y, p, q, seen))
  {
    hide RefAfterName, JunkEnd;
    var e := p + |PrintPiece(x)|;
    forall k | p + 1 <= k < e ensures IsOws(y[k]) {
      assert PrintPiece(x) == ";" + (x.lead + x.trail);
      assert y[k] == y[p..e][k - p] == (x.lead + x.trail)[k - p - 1];
    }
    assert SkipOws(y, p + 1) == e == Until(y, e, REF_PARAM_STOPS);
  }

  // ----- the parameters of an element -----

  /** Junk without quotes or commas is passed to its end, and quotes in it are given up on. */
  lemma {:induction false} JunkOverText(y: string, p: nat, e: nat)
    requires p <= e <= |y| && (e == |y| || y[e] == ',') && forall k | p <= k < e :: y[k] != ',' && y[k] != '"'
    ensures JunkEnd(y, p) == e
    decreases e - p
  {
    if p < e { JunkOverText(y, p + 1, e); }
  }

  lemma {:induction false} JunkToQuote(y: string, p: nat, e: nat)
    requires p <= e < |y| && y[e] == '"' && forall k | p <= k < e :: y[k] != ','
    ensures JunkEnd(y, p) == UNSURE
    decreases e - p
  {
    if p < e && y[p] != '"' { JunkToQuote(y, p + 1, e); }
  }

  /** A printed parameter without quotes holds no comma and no quote; one with quotes reaches its quote first. */
  lemma PieceChars(x: Piece)
    requires PrintablePiece(x)
    ensures !HasQuotes(x.item) ==> PlainChars(PrintPiece(x))
    ensures HasQuotes(x.item) ==>
              && PlainChars(OpeningOf(x)) && |OpeningOf(x)| < |PrintPiece(x)|
              && PrintPiece(x)[..|OpeningOf(x)|] == OpeningOf(x) && PrintPiece(x)[|OpeningOf(x)|] == '"'
  {
    hide PlainChars, PrintablePiece, PrintPiece, Escaped;
    if HasQuotes(x.item) {
      QuotedPieceParts(x);
    } else {
      PieceIsPlain(x);
    }
  }

  lemma {:induction false} JunkOverPieces(y: string, j: nat, p: nat, xs: seq<Piece>)
    requires (forall i | 0 <= i < |xs| :: PrintablePiece(xs[i])) && At(y, p, PrintPieces(xs))
    requires p + |PrintPieces(xs)| == |y| || y[p + |PrintPieces(xs)|] == ','
    requires j <= p && forall k | j <= k < p :: y[k] != ',' && y[k] != '"'
    ensures JunkEnd(y, j) == if NoQuotes(xs) then p + |PrintPieces(xs)| else UNSURE
    decreases |xs|
  {
    hide PrintPiece, PrintablePiece, JunkEnd;
    if xs == [] {
      JunkOverText(y, j, p);
    } else {
      var x, rest := xs[0], xs[1..];
      AtParts(y, p, PrintPiece(x), PrintPieces(rest));
      PieceChars(x);
      assert forall i | 0 <= i < |rest| :: rest[i] == xs[i + 1];
      var e := p + |PrintPiece(x)|;
      assert forall k | p <= k < e :: y[k] == PrintPiece(x)[k - p] by {
        forall k | p <= k < e ensures y[k] == PrintPiece(x)[k - p] { assert y[p..e][k - p] == y[k]; }
      }
      if HasQuotes(x.item) {
        var b := |OpeningOf(x)|;
        forall k | p <= k < p + b ensures y[k] != ',' { assert PrintPiece(x)[k - p] == OpeningOf(x)[k - p]; }
        JunkToQuote(y, j, p + b);
      } else {
        JunkOverPieces(y, j, e, rest);
        assert NoQuotes(xs) <==> NoQuotes(rest);
      }
    }
  }

  /** The reference's answer on printed parameters: it is confident, and at their end, exactly when they are sure. */
  lemma {:induction false} RefPieces(y: string, p: nat, xs: seq<Piece>, q: int, seen: bool)
    requires (forall i | 0 <= i < |xs| :: PrintablePiece(xs[i])) && At(y, p, PrintPieces(xs))
    requires p + |PrintPieces(xs)| == |y| || y[p + |PrintPieces(xs)|] == ','
    ensures var r := RefParams(y, p, q, seen);
            (Confident(y, r) <==> SurePieces(xs, seen)) && (Confident(y, r) ==> r.next == p + |PrintPieces(xs)|)
    decreases |xs|
  {
    hide PrintPiece, PrintablePiece, PrintPieces, JunkEnd, RefAfterName, RefParams, Milli, IsQvalue, Simple, NoQuotes, AtDelimiter, ValueOf, NameOf;
    var end := p + |PrintPieces(xs)|;
    NoPieces(xs);
    if xs == [] {
      NoMoreParams(y, p, q, seen);
    } else {
      var x, rest := xs[0], xs[1..];
      PiecesSplit(xs);
      AtParts(y, p, PrintPiece(x), PrintPieces(rest));
      var e := p + |PrintPiece(x)|;
      PiecesEndAt(y, e, rest);
      HandlesPiece(y, p, x, q, seen);
      assert forall i | 0 <= i < |rest| :: rest[i] == xs[i + 1];
      match x.item
      case Empty => JunkOverPieces(y, e, e, rest);
      case BareQ(_) =>
      case Q(_, text) => if !seen && IsQvalue(text) { RefPieces(y, e, rest, Milli(text), true); }
      case QuotedParam(_, _) => RefPieces(y, e, rest, q, seen);
      case Flag(_) => RefPieces(y, e, rest, q, seen);
      case TokenParam(_, _) => RefPieces(y, e, rest, q, seen);
      case _ =>
    }
  }

  lemma PiecesSplit(xs: seq<Piece>)
    requires xs != []
    ensures PrintPieces(xs) == PrintPiece(xs[0]) + PrintPieces(xs[1..])
  {
    hide PrintPiece;
  }

  lemma PiecesEndAt(y: string, e: nat, rest: seq<Piece>)
    requires At(y, e, PrintPieces(rest)) && (e + |PrintPieces(rest)| == |y| || y[e + |PrintPieces(rest)|] == ',')
    ensures AtDelimiter(y, e)
  {
    hide PrintPieces;
    PiecesStart(rest);
    if PrintPieces(rest) != "" { FirstOf(y, e, PrintPieces(rest)); }
  }

  // ----- elements and lists -----

  /** The token characters at the start of a name. */
  lemma {:induction false} TokenEndOf(y: string, p: nat, name: string)
    requires At(y, p, name) && (p + |name| == |y| || !IsTokenChar(y[p + |name|]))
    ensures TokenEnd(y, p) <= p + |name| && (TokenEnd(y, p) == p + |name| <==> AllToken(name))
    ensures TokenEnd(y, p) == p <==> name == "" || !IsTokenChar(name[0])
    decreases |name|
  {
    hide IsTokenChar;
    if name != "" {
      FirstOf(y, p, name);
      assert name == [name[0]] + name[1..];
      AtParts(y, p, [name[0]], name[1..]);
      if IsTokenChar(name[0]) {
        TokenEndOf(y, p + 1, name[1..]);
        assert AllToken(name) <==> AllToken(name[1..]);
      }
    }
  }

  /** Where the parts of an element stand. */
  lemma ElementPlaces(y: string, p: nat, e: Listed)
    requires PrintableElement(e) && At(y, p, PrintElement(e))
    requires p + |PrintElement(e)| == |y| || y[p + |PrintElement(e)|] == ','
    ensures var m := p + |e.name| + |e.gap|;
            && At(y, p, e.name) && At(y, m, PrintPieces(e.pieces)) && m + |PrintPieces(e.pieces)| == p + |PrintElement(e)|
            && SkipOws(y, p + |e.name|) == m && AtDelimiter(y, m)
            && (p + |e.name| == |y| || !IsTokenChar(y[p + |e.name|]))
  {
    hide PrintPieces, PrintablePiece, SkipOws, IsPlainText, At;
    var tail := PrintPieces(e.pieces);
    assert PrintElement(e) == e.name + (e.gap + tail);
    AtParts(y, p, e.name, e.gap + tail);
    AtParts(y, p + |e.name|, e.gap, tail);
    PiecesEndAt(y, p + |e.name| + |e.gap|, e.pieces);
    BlankRun(y, p + |e.name|, e.gap);
    if e.gap != "" { FirstOf(y, p + |e.name|, e.gap); }
  }

  lemma NameStart(e: Listed)
    requires PrintableElement(e)
    ensures e.name != "" && e.name[0] != '"' && !IsOws(e.name[0]) && e.name[0] != ','
    ensures forall k | 0 <= k < |e.name| :: e.name[k] !in VALUE_STOPS && !IsOws(e.name[k]) && e.name[k] != '"'
  {}

  /** An element whose name is a token is read by its parameters. */
  lemma TokenElement(y: string, p: nat, e: Listed)
    requires PrintableElement(e) && At(y, p, PrintElement(e)) && AllToken(e.name)
    requires p + |PrintElement(e)| == |y| || y[p + |PrintElement(e)|] == ','
    ensures var r := RefElementAt(y, p);
            (r.Element? <==> SureElement(e)) && (r.Element? ==> r.next == p + |PrintElement(e)|)
  {
    hide PrintPieces, PrintElement, PrintableElement, SurePieces, RefParams, SkipOws, TokenEnd, IsTokenChar, JunkEnd, At, RefForm;
    ElementPlaces(y, p, e);
    NameStart(e);
    FirstOf(y, p, e.name);
    TokenEndOf(y, p, e.name);
    Pieces(e);
    RefPieces(y, p + |e.name| + |e.gap|, e.pieces, 1000, false);
  }

  lemma Pieces(e: Listed)
    requires PrintableElement(e)
    ensures forall i | 0 <= i < |e.pieces| :: PrintablePiece(e.pieces[i])
  {}

  /** An element whose name is no token is passed over, or given up on. */
  lemma OddElement(y: string, p: nat, e: Listed)
    requires PrintableElement(e) && At(y, p, PrintElement(e)) && !AllToken(e.name)
    requires p + |PrintElement(e)| == |y| || y[p + |PrintElement(e)|] == ','
    ensures var r := RefElementAt(y, p);
            (r.Element? <==> SureElement(e)) && (r.Element? ==> r.next == p + |PrintElement(e)|)
  {
    hide PrintPieces, PrintElement, PrintableElement, RefParams, TokenEnd, IsTokenChar, JunkEnd, At, RefForm;
    ElementPlaces(y, p, e);
    NameStart(e);
    FirstOf(y, p, e.name);
    TokenEndOf(y, p, e.name);
    Pieces(e);
    var stop, m := TokenEnd(y, p), p + |e.name| + |e.gap|;
    NameChars(y, p, e);
    assert SkipOws(y, stop) == stop;
    hide SkipOws;
    if stop > p { JunkOverPieces(y, stop, m, e.pieces); }
  }

  lemma NameChars(y: string, p: nat, e: Listed)
    requires PrintableElement(e) && At(y, p, PrintElement(e))
    ensures p + |e.name| + |e.gap| <= |y| && forall k | p <= k < p + |e.name| + |e.gap| :: y[k] != ',' && y[k] != '"'
    ensures forall k | p <= k < p + |e.name| :: y[k] !in VALUE_STOPS && !IsOws(y[k])
  {
    hide PrintPieces;
    NameStart(e);
    var t := PrintElement(e);
    assert t == e.name + (e.gap + PrintPieces(e.pieces));
    forall k | p <= k < p + |e.name| + |e.gap|
      ensures y[k] != ',' && y[k] != '"' && (k < p + |e.name| ==> y[k] !in VALUE_STOPS && !IsOws(y[k]))
    {
      assert y[k] == y[p..p + |t|][k - p] == t[k - p];
      if k < p + |e.name| { assert y[k] == e.name[k - p]; } else { assert y[k] == e.gap[k - p - |e.name|]; }
    }
  }

  /** The reference reads a printed list to its end exactly when it understands every element. */
  lemma {:induction false} RefList(y: string, p: nat, es: seq<Listed>, w: Weights)
    requires (forall i | 0 <= i < |es| :: PrintableElement(es[i])) && At(y, p, PrintList(es)) && p + |PrintList(es)| == |y|
    ensures RefFold(y, p, w).Gathered? <==> forall i | 0 <= i < |es| :: SureElement(es[i])
    decreases |es|
  {
    hide PrintElement, PrintableElement, SureElement, RefElementAt, RefApply, At, AllToken;
    if es == [] {
      assert PrintList(es) == "";
    } else {
      var x, rest := PrintElement(es[0]), es[1..];
      ListParts(es);
      NameStart(es[0]);
      if rest != [] {
        AtParts(y, p, x, "," + PrintList(rest));
        AtParts(y, p + |x|, ",", PrintList(rest));
        FirstOf(y, p + |x|, ",");
      }
      ElementStarts(y, p, es[0]);
      if AllToken(es[0].name) { TokenElement(y, p, es[0]); } else { OddElement(y, p, es[0]); }
      assert forall i | 0 <= i < |rest| :: rest[i] == es[i + 1];
      var r := RefElementAt(y, p);
      if r.Element? && rest != [] {
        hide PrintList, RefFold;
        RefList(y, p + |x| + 1, rest, RefApply(w, r.form, r.q));
        assert (forall i | 0 <= i < |es| :: SureElement(es[i])) <==> forall i | 0 <= i < |rest| :: SureElement(rest[i]);
      }
    }
  }

  lemma ListParts(es: seq<Listed>)
    requires es != []
    ensures PrintList(es) == if |es| == 1 then PrintElement(es[0]) else PrintElement(es[0]) + ("," + PrintList(es[1..]))
  {
    hide PrintElement;
    assert PrintElements(es)[1..] == PrintElements(es[1..]);
  }

  lemma ElementStarts(y: string, p: nat, e: Listed)
    requires PrintableElement(e) && At(y, p, PrintElement(e))
    ensures p < |y| && y[p] == e.name[0] && |PrintElement(e)| > 0
  {
    assert PrintElement(e)[0] == e.name[0];
    FirstOf(y, p, PrintElement(e));
  }

  /** On printed lists the reference answers exactly when it understands every element. */
  lemma ConfidentExactly(es: seq<Listed>)
    requires forall i | 0 <= i < |es| :: PrintableElement(es[i])
    ensures RefVerdict(PrintList(es)) != UNSURE <==> forall i | 0 <= i < |es| :: SureElement(es[i])
  {
    hide RefFold, PrintList, PrintableElement, SureElement;
    var y := PrintList(es);
    assert y[0..|y|] == y;
    RefList(y, 0, es, NONE);
  }

  /** And then it accepts exactly when the weights the list was printed from do. */
  lemma AnswersWhatWasPrinted(es: seq<Listed>)
    requires (forall i | 0 <= i < |es| :: PrintableElement(es[i])) && (forall i | 0 <= i < |es| :: SureElement(es[i]))
    ensures RefVerdict(PrintList(es)) == 1 <==> Precedence(ListMeaning(es, "br", NONE), true) > 0
  {
    hide RefVerdict, PrintList, PrintableElement, SureElement, FieldValue, ListMeaning;
    ConfidentExactly(es);
    ReferenceAgrees(PrintList(es));
    WalkOfPrinted(es, "br");
  }

  /** Tokens with one well-formed weight at most, token parameters and simple quoted ones are all understood. */
  lemma ConfidentOnWellFormed(es: seq<Listed>)
    requires forall i | 0 <= i < |es| :: PrintableElement(es[i]) && AllToken(es[i].name) && WellFormed(es[i].pieces)
    requires forall i, j | 0 <= i < |es| && 0 <= j < |es[i].pieces| :: OneValue(es[i].pieces[j].item)
    ensures RefVerdict(PrintList(es)) != UNSURE
  {
    hide RefVerdict, PrintList, SurePieces, WellFormed, OneValue;
    forall i | 0 <= i < |es| ensures SureElement(es[i]) {
      WellFormedIsSure(es[i].pieces, false);
    }
    ConfidentExactly(es);
  }
}
