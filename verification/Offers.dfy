/**
 From the text of Accept-Encoding to the coding that is served: a request whose lines were printed
 from a list of codings gets a coding only if the list grants it.
 */
module Offers {
  import opened Text
  import opened Headers
  import opened AcceptEncoding
  import opened FieldLines
  import opened RoundTrip
  import opened Negotiation

  /** The request's Accept-Encoding lines, joined, are the printed list; all but the last end cleanly. */
  ghost predicate Lists(req: Request, es: seq<Listed>) {
    var lines := ValuesOf(req.fields, "Accept-Encoding");
    && (forall k | 0 <= k < |lines| - 1 :: Clean(lines[k]))
    && Join(lines) == PrintList(es)
    && forall k | 0 <= k < |es| :: PrintableElement(es[k])
  }

  /** Its last well-formed mention, or failing any its last well-formed "*", gives more than nothing. */
  ghost predicate Grants(es: seq<Listed>, coding: string, wildcard: bool) {
    || (exists i: nat | LastNaming(es, coding, i) :: Stated(es[i].pieces) > 0)
    || (wildcard && exists i: nat | LastStar(es, coding, i) :: Stated(es[i].pieces) > 0)
  }

  /** The last place of a list at which a property holds, or -1. */
  lemma {:induction false} LastPlace(marks: seq<bool>) returns (i: int)
    ensures -1 <= i < |marks| && (i >= 0 ==> marks[i]) && forall j | i < j < |marks| :: !marks[j]
    decreases |marks|
  {
    if marks == [] { return -1; }
    var last := |marks| - 1;
    if marks[last] { return last; }
    i := LastPlace(marks[..last]);
  }

  /** A list names the coding, or only "*", or neither. */
  lemma ThreeCases(es: seq<Listed>, coding: string) returns (i: int, star: bool)
    ensures i < |es|
    ensures i >= 0 && !star ==> LastNaming(es, coding, i)
    ensures i >= 0 && star ==> LastStar(es, coding, i)
    ensures i >= 0 <==> exists j | 0 <= j < |es| :: (SameName(es[j].name, coding) || es[j].name == "*") && WellFormed(es[j].pieces)
  {
    hide SameName, WellFormed, Stated;
    forall j | 0 <= j < |es| ensures Stated(es[j].pieces) >= 0 <==> WellFormed(es[j].pieces) { StatedWhenWellFormed(es[j].pieces); }
    var named := seq(|es|, j requires 0 <= j < |es| => SameName(es[j].name, coding) && Stated(es[j].pieces) >= 0);
    var starred := seq(|es|, j requires 0 <= j < |es| => es[j].name == "*" && Stated(es[j].pieces) >= 0);
    star := false;
    i := LastPlace(named);
    assert forall j | 0 <= j < |es| :: named[j] <==> SameName(es[j].name, coding) && Stated(es[j].pieces) >= 0;
    if i < 0 {
      star := true;
      i := LastPlace(starred);
      assert forall j | 0 <= j < |es| :: starred[j] <==> es[j].name == "*" && Stated(es[j].pieces) >= 0;
    }
  }

  lemma StatedWhenWellFormed(xs: seq<Piece>)
    ensures Stated(xs) >= 0 <==> WellFormed(xs)
  {}

  /** The request asks for a coding exactly when its list grants it. */
  lemma AskedIsGranted(req: Request, es: seq<Listed>, coding: string, wildcard: bool)
    requires Lists(req, es)
    ensures Asks(req, coding, wildcard) <==> Grants(es, coding, wildcard)
  {
    hide Clean, PrintList, Stated, PrintableElement, ValuesOf, CodingWeightOf, RequestWeight, SameName, WellFormed, Join;
    FoldedIsJoined(ValuesOf(req.fields, "Accept-Encoding"), coding, wildcard);
    forall i: nat | LastNaming(es, coding, i) ensures CodingWeightOf(PrintList(es), coding, wildcard) == Stated(es[i].pieces) {
      LastMentionDecides(es, coding, wildcard, i);
    }
    forall i: nat | LastStar(es, coding, i)
      ensures CodingWeightOf(PrintList(es), coding, wildcard) == if wildcard then Stated(es[i].pieces) else -1
    {
      LastStarDecides(es, coding, wildcard, i);
    }
    var i, star := ThreeCases(es, coding);
    if i < 0 { UnlistedIsUnlisted(es, coding, wildcard); }
  }

  /**
   What is served, by the text of the request: br or dcb only if the list grants it, and when the
   response is open to compression and the list grants br, something other than identity.
   */
  lemma ServedIsGranted(conf: Conf, scene: Scene, resp: Response, req: Request, es: seq<Listed>)
    requires Lists(req, es)
    ensures var o := Decide(conf, scene, resp, req);
            && (o == Br ==> Grants(es, "br", true))
            && (o.Dcb? ==> Grants(es, "dcb", false))
            && (Open(conf, resp, req) && scene.main && Grants(es, "br", true) ==> o != Identity)
  {
    hide Lists, Grants, Open, Asks;
    AskedIsGranted(req, es, "br", true);
    AskedIsGranted(req, es, "dcb", false);
    DecisionIsJustified(conf, scene, resp, req, Decide(conf, scene, resp, req));
  }

  /** Refused or not mentioned: never br. */
  lemma RefusedNeverServed(conf: Conf, scene: Scene, resp: Response, req: Request, es: seq<Listed>)
    requires Lists(req, es)
    requires || (exists i: nat | LastNaming(es, "br", i) :: Stated(es[i].pieces) == 0)
             || (forall j | 0 <= j < |es| :: !SameName(es[j].name, "br") && es[j].name != "*")
    ensures Decide(conf, scene, resp, req) != Br
  {
    hide Lists, Open, SameName, Stated, WellFormed, Decide;
    ServedIsGranted(conf, scene, resp, req, es);
  }
}
