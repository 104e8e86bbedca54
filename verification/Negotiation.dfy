/**
 What the header filter decides for a response, and the Vary header it emits with the decision.
 */
module Negotiation {
  import opened Options
  import opened Octets
  import opened Text
  import opened Headers
  import opened CacheControl
  import opened FieldLines
  import opened Locality

  /** A loaded dictionary: its hash is the negotiation key. */
  datatype Dict = Dict(file: string, bytes: seq<byte>, hash: seq<byte>)

  /** The merged location configuration. */
  datatype Conf = Conf(
    enable: bool,
    minLength: int,
    maxLength: Option<int>,
    bypass: Option<Request -> bool>,   // the predicates: true asks for identity
    bypassVary: string,
    dicts: seq<Dict>,
    assumeSecure: bool)

  datatype Request = Request(fields: seq<Field>)

  /** The response as it reaches the filter; content length -1 is unknown. */
  datatype Response = Response(
    status: int,
    headerOnly: bool,
    encoded: bool,
    contentLength: int,
    typeMatches: bool,
    headers: seq<Header>)

  /** What is fixed besides: main request or not, TLS on the connection, the gzip_vary directive. */
  datatype Scene = Scene(main: bool, ssl: bool, gzipVary: bool, decode64: string -> Option<seq<byte>>)

  datatype Outcome = Identity | Br | Dcb(dict: Dict)

  const AVAILABLE_DICTIONARY := "Available-Dictionary"
  const SEC_FETCH_SITE := "Sec-Fetch-Site"
  const COMBINED_VARY := ACCEPT_ENCODING + (", " + (AVAILABLE_DICTIONARY + (", " + SEC_FETCH_SITE)))
  const DIGEST_LEN: nat := 32

  // ----- the gates that look at the response only -----

  predicate Eligible(conf: Conf, resp: Response) {
    && conf.enable
    && resp.status in {200, 403, 404, 410}
    && !resp.headerOnly && !resp.encoded
    && !(resp.contentLength != -1 && resp.contentLength < conf.minLength)
    && !(conf.maxLength.Some? && resp.contentLength != -1 && resp.contentLength > conf.maxLength.value)
    && resp.typeMatches
    && !(exists i | 0 <= i < |resp.headers| :: IsCacheControl(resp.headers[i]) && NoTransformIn(resp.headers[i].value))
  }

  predicate Bypassed(conf: Conf, req: Request) {
    conf.bypass.Some? && conf.bypass.value(req)
  }

  // ----- dictionary negotiation -----

  /** The 32 bytes an Available-Dictionary value names, if it is a well-formed byte sequence. */
  function NamedHash(value: string, decode64: string -> Option<seq<byte>>): Option<seq<byte>> {
    if |value| < 2 || value[0] != ':' || value[|value| - 1] != ':' || |value| - 2 > 44 then None
    else match decode64(value[1..|value| - 1])
      case None => None
      case Some(d) => if |d| == DIGEST_LEN then Some(d) else None
  }

  predicate SameSite(value: string) {
    SameName(value, "same-origin") || SameName(value, "none")
  }

  function AcceptLines(req: Request): seq<string> {
    ValuesOf(req.fields, ACCEPT_ENCODING)
  }

  /** Every gate of dcb but the match with a dictionary. */
  predicate DcbAllowed(conf: Conf, scene: Scene, req: Request) {
    && scene.main && (conf.assumeSecure || scene.ssl)
    && AcceptLines(req) != []
    && (match FirstOf(req.fields, SEC_FETCH_SITE) case None => true case Some(v) => SameSite(v))
    && RequestWeight(AcceptLines(req), "dcb", false) > 0
  }

  /** The hash the request names. */
  function Wanted(scene: Scene, req: Request): Option<seq<byte>> {
    match FirstOf(req.fields, AVAILABLE_DICTIONARY)
    case None => None
    case Some(v) => NamedHash(v, scene.decode64)
  }

  function FindDict(dicts: seq<Dict>, hash: seq<byte>): Option<Dict> {
    if dicts == [] then None
    else if dicts[0].hash == hash then Some(dicts[0])
    else FindDict(dicts[1..], hash)
  }

  function Negotiated(conf: Conf, scene: Scene, req: Request): Option<Dict> {
    match Wanted(scene, req)
    case None => None
    case Some(hash) => if DcbAllowed(conf, scene, req) then FindDict(conf.dicts, hash) else None
  }

  function Decide(conf: Conf, scene: Scene, resp: Response, req: Request): Outcome {
    if !Eligible(conf, resp) || Bypassed(conf, req) then Identity
    else match Negotiated(conf, scene, req)
      case Some(d) => Dcb(d)
      case None =>
        if scene.main && RequestWeight(AcceptLines(req), "br", true) > 0 then Br else Identity
  }

  // ----- the program -----

  method DcbNegotiate(conf: Conf, scene: Scene, req: Request) returns (d: Option<Dict>)
    ensures d == Negotiated(conf, scene, req)
  {
    hide SameName, RequestWeight, ValuesOf;
    if |conf.dicts| == 0 {
      return None;
    }
    if !scene.main {
      return None;
    }
    if !conf.assumeSecure {
      if !scene.ssl {
        return None;
      }
    }
    if AcceptLines(req) == [] {
      return None;
    }
    var h := FindRequestHeader(req.fields, AVAILABLE_DICTIONARY);
    if h.None? {
      return None;
    }
    if |h.value| < 2 || h.value[0] != ':' || h.value[|h.value| - 1] != ':' || |h.value| - 2 > 44 {
      return None;
    }
    var decoded := scene.decode64(h.value[1..|h.value| - 1]);
    if decoded.None? || |decoded.value| != DIGEST_LEN {
      return None;
    }
    h := FindRequestHeader(req.fields, SEC_FETCH_SITE);
    if h.Some? && !SameName(h.value, "same-origin") && !SameName(h.value, "none") {
      return None;
    }
    var q := RequestCodingWeight(AcceptLines(req), "dcb", false);
    if q <= 0 {
      return None;
    }
    for i := 0 to |conf.dicts|
      invariant FindDict(conf.dicts, decoded.value) == FindDict(conf.dicts[i..], decoded.value)
    {
      if conf.dicts[i].hash == decoded.value {
        return Some(conf.dicts[i]);
      }
    }
    return None;
  }

  // ----- the header filter -----

  const VARY := "Vary"

  function VaryLine(value: string): Header {
    Header(1, VARY, value)
  }

  /** The line named by brotli_bypass_vary, on bypassed and compressed responses alike. */
  function BypassLine(conf: Conf): seq<Header> {
    if conf.bypassVary == "" then [] else [VaryLine(conf.bypassVary)]
  }

  /** The negotiation's own Vary line, unless nginx will emit it or it is there already. */
  function NegotiationLine(conf: Conf, scene: Scene, before: seq<Header>): seq<Header> {
    if conf.dicts != [] then [VaryLine(COMBINED_VARY)]
    else if scene.gzipVary || VaryLists(before, ACCEPT_ENCODING) then []
    else [VaryLine(ACCEPT_ENCODING)]
  }

  function CodingLine(o: Outcome): seq<Header> {
    match o
    case Identity => []
    case Br => [Header(1, "Content-Encoding", "br")]
    case Dcb(_) => [Header(1, "Content-Encoding", "dcb")]
  }

  /** The response headers after the filter. */
  function HeadersAfter(conf: Conf, scene: Scene, resp: Response, req: Request): seq<Header> {
    if !Eligible(conf, resp) then resp.headers
    else
      var h := resp.headers + BypassLine(conf);
      if Bypassed(conf, req) then h
      else h + NegotiationLine(conf, scene, h) + CodingLine(Decide(conf, scene, resp, req))
  }

  // ----- what each outcome means, for a client and a cache -----

  /** The response may be compressed at all. */
  ghost predicate Compressible(conf: Conf, resp: Response) {
    && conf.enable
    && (resp.status == 200 || resp.status == 403 || resp.status == 404 || resp.status == 410)
    && !resp.headerOnly && !resp.encoded && resp.typeMatches
    && (resp.contentLength == -1 || resp.contentLength >= conf.minLength)
    && (resp.contentLength == -1 || conf.maxLength == None || resp.contentLength <= conf.maxLength.value)
    && forall h | h in resp.headers && h.hash != 0 && SameName(h.key, "Cache-Control") && h.value != "" ::
         !NoTransformIn(h.value)
  }

  /** It may, and no bypass predicate asks for identity. */
  ghost predicate Open(conf: Conf, resp: Response, req: Request) {
    Compressible(conf, resp) && (conf.bypass == None || !conf.bypass.value(req))
  }

  /** The request gives the coding a positive weight. */
  ghost predicate Asks(req: Request, coding: string, wildcard: bool) {
    RequestWeight(ValuesOf(req.fields, "Accept-Encoding"), coding, wildcard) > 0
  }

  /** The request holds the dictionary with this hash: it sends ":", the base64 of 32 bytes, ":". */
  ghost predicate Holds(scene: Scene, req: Request, hash: seq<byte>) {
    |hash| == 32 &&
    exists b: string | scene.decode64(b) == Some(hash) ::
      |b| <= 44 && FirstOf(req.fields, "Available-Dictionary") == Some(":" + b + ":")
  }

  /** A main request over a secure channel and not from another site. */
  ghost predicate Trusted(conf: Conf, scene: Scene, req: Request) {
    && scene.main && (scene.ssl || conf.assumeSecure)
    && match FirstOf(req.fields, "Sec-Fetch-Site")
       case None => true
       case Some(site) => SameName(site, "same-origin") || SameName(site, "none")
  }

  /** Dictionary number `i` is the one to compress with: the first that the client holds. */
  ghost predicate Fits(conf: Conf, scene: Scene, req: Request, i: nat) {
    && i < |conf.dicts| && Trusted(conf, scene, req) && Asks(req, "dcb", false)
    && Holds(scene, req, conf.dicts[i].hash)
    && forall j | 0 <= j < i :: conf.dicts[j].hash != conf.dicts[i].hash
  }

  /** The outcome the request and the response call for. */
  ghost predicate Justified(conf: Conf, scene: Scene, resp: Response, req: Request, o: Outcome) {
    && (forall i: nat | Open(conf, resp, req) && Fits(conf, scene, req, i) :: o == Dcb(conf.dicts[i]))
    && (o.Dcb? ==> Open(conf, resp, req) && exists i: nat :: Fits(conf, scene, req, i))
    && (o == Br <==> && Open(conf, resp, req) && scene.main && Asks(req, "br", true)
                     && !exists i: nat :: Fits(conf, scene, req, i))
  }

  /** Some live Vary line names the header. */
  ghost predicate NamedInVary(headers: seq<Header>, name: string) {
    exists h | h in headers :: h.hash != 0 && SameName(h.key, "Vary") && NamesHeader(h.value, name)
  }

  /** The header lines of the response with that outcome. */
  ghost predicate Labelled(conf: Conf, scene: Scene, resp: Response, req: Request, o: Outcome, sent: seq<Header>) {
    var before := resp.headers +
      if Compressible(conf, resp) && conf.bypassVary != "" then [Header(1, "Vary", conf.bypassVary)] else [];
    var vary :=
      if !Open(conf, resp, req) then []
      else if conf.dicts != [] then [Header(1, "Vary", "Accept-Encoding" + (", " + ("Available-Dictionary" + (", " + "Sec-Fetch-Site"))))]
      else if scene.gzipVary || NamedInVary(before, "Accept-Encoding") then []
      else [Header(1, "Vary", "Accept-Encoding")];
    sent == before + vary + match o
      case Identity => []
      case Br => [Header(1, "Content-Encoding", "br")]
      case Dcb(_) => [Header(1, "Content-Encoding", "dcb")]
  }

  lemma CompressibleIsEligible(conf: Conf, resp: Response)
    ensures Eligible(conf, resp) <==> Compressible(conf, resp)
  {
    hide SameName, NoTransformIn;
    var h := resp.headers;
    assert forall i | 0 <= i < |h| :: h[i] in h;
    assert forall x | x in h :: exists i :: 0 <= i < |h| && h[i] == x;
  }

  lemma HoldsIsWanted(scene: Scene, req: Request, hash: seq<byte>)
    ensures Holds(scene, req, hash) <==> Wanted(scene, req) == Some(hash)
  {
    hide ValuesOf;
    var v := FirstOf(req.fields, "Available-Dictionary");
    if Holds(scene, req, hash) {
      var b :| scene.decode64(b) == Some(hash) && |b| <= 44 && v == Some(":" + b + ":");
      assert v.value[1..|v.value| - 1] == b;
    }
    if Wanted(scene, req) == Some(hash) {
      var b := v.value[1..|v.value| - 1];
      assert v.value == ":" + b + ":";
      assert scene.decode64(b) == Some(hash);
    }
  }

  lemma NothingAsksNothing(req: Request, coding: string, wildcard: bool)
    ensures Asks(req, coding, wildcard) ==> AcceptLines(req) != []
  {}

  lemma TrustedIsAllowed(conf: Conf, scene: Scene, req: Request)
    ensures DcbAllowed(conf, scene, req) <==> Trusted(conf, scene, req) && Asks(req, "dcb", false)
  {
    hide SameName, ValuesOf, RequestWeight;
    NothingAsksNothing(req, "dcb", false);
  }

  /** The search finds the first dictionary with the hash. */
  lemma {:induction false} FindDictIsFirst(dicts: seq<Dict>, hash: seq<byte>, i: nat)
    requires i < |dicts| && dicts[i].hash == hash && forall j | 0 <= j < i :: dicts[j].hash != hash
    ensures FindDict(dicts, hash) == Some(dicts[i])
    decreases i
  {
    if i > 0 { FindDictIsFirst(dicts[1..], hash, i - 1); }
  }

  lemma {:induction false} FoundIsFirst(dicts: seq<Dict>, hash: seq<byte>) returns (i: nat)
    requires FindDict(dicts, hash).Some?
    ensures i < |dicts| && dicts[i].hash == hash && forall j | 0 <= j < i :: dicts[j].hash != hash
    decreases |dicts|
  {
    if dicts[0].hash == hash { return 0; }
    i := FoundIsFirst(dicts[1..], hash);
    i := i + 1;
  }

  /** Dictionary negotiation succeeds exactly with the dictionary that fits. */
  lemma NegotiatedFits(conf: Conf, scene: Scene, req: Request)
    ensures forall i: nat | Fits(conf, scene, req, i) :: Negotiated(conf, scene, req) == Some(conf.dicts[i])
    ensures Negotiated(conf, scene, req).Some? ==> exists i: nat :: Fits(conf, scene, req, i)
  {
    hide Trusted, Asks, Holds, DcbAllowed, Wanted, FindDict;
    TrustedIsAllowed(conf, scene, req);
    forall i: nat | Fits(conf, scene, req, i) ensures Negotiated(conf, scene, req) == Some(conf.dicts[i]) {
      HoldsIsWanted(scene, req, conf.dicts[i].hash);
      FindDictIsFirst(conf.dicts, conf.dicts[i].hash, i);
    }
    if Negotiated(conf, scene, req).Some? {
      var hash := Wanted(scene, req).value;
      var i := FoundIsFirst(conf.dicts, hash);
      HoldsIsWanted(scene, req, hash);
      assert Fits(conf, scene, req, i);
    }
  }

  /** The decision is the one that is called for, and no other is. */
  lemma DecisionIsJustified(conf: Conf, scene: Scene, resp: Response, req: Request, o: Outcome)
    ensures Justified(conf, scene, resp, req, o) <==> o == Decide(conf, scene, resp, req)
  {
    hide Compressible, Eligible, Fits, Negotiated, RequestWeight, ValuesOf;
    CompressibleIsEligible(conf, resp);
    NegotiatedFits(conf, scene, req);
  }

  lemma ListsIsListed(headers: seq<Header>, name: string)
    ensures VaryLists(headers, name) <==> NamedInVary(headers, name)
  {
    hide SameName, NamesHeader;
    if NamedInVary(headers, name) {
      var h :| h in headers && h.hash != 0 && SameName(h.key, "Vary") && NamesHeader(h.value, name);
      var i :| 0 <= i < |headers| && headers[i] == h;
      assert IsVary(headers[i]);
    }
  }

  lemma HeadersAreLabelled(conf: Conf, scene: Scene, resp: Response, req: Request)
    ensures Labelled(conf, scene, resp, req, Decide(conf, scene, resp, req), HeadersAfter(conf, scene, resp, req))
  {
    hide Compressible, Eligible, NamesHeader, Decide, SameName;
    CompressibleIsEligible(conf, resp);
    if !Eligible(conf, resp) || Bypassed(conf, req) { IneligibleIsIdentity(conf, scene, resp, req); }
    var h := resp.headers + BypassLine(conf);
    assert h + [] == h && resp.headers + [] == resp.headers;
    ListsIsListed(h, "Accept-Encoding");
  }

  /** Whether the filter asks nginx for its own "Vary: Accept-Encoding" line. */
  predicate AsksGzipVary(conf: Conf, resp: Response, req: Request) {
    Eligible(conf, resp) && !Bypassed(conf, req) && conf.dicts == []
  }

  /** How many allocations the filter makes for a response it does not fail: one a header line, one for the context. */
  function Allocations(conf: Conf, scene: Scene, resp: Response, req: Request): nat {
    var line := NegotiationLine(conf, scene, resp.headers + BypassLine(conf));
    var own := if Decide(conf, scene, resp, req).Identity? then 0 else 2;
    if !Eligible(conf, resp) then 0
    else if Bypassed(conf, req) then |BypassLine(conf)|
    else |BypassLine(conf)| + (|line| + own)
  }

  /** One of the `n` allocations from number `from` on fails. */
  ghost predicate OutOfMemory(memory: nat -> bool, from: nat, n: nat) {
    exists k: nat | from <= k < from + n :: !memory(k)
  }

  lemma MemorySplit(memory: nat -> bool, from: nat, n: nat, m: nat)
    ensures OutOfMemory(memory, from, n + m) <==> OutOfMemory(memory, from, n) || OutOfMemory(memory, from + n, m)
  {
    if k: nat :| from <= k < from + n + m && !memory(k) { assert k < from + n || from + n <= k; }
  }

  lemma MemoryOne(memory: nat -> bool, from: nat)
    ensures !OutOfMemory(memory, from, 0) && (OutOfMemory(memory, from, 1) <==> !memory(from))
  {}

  class Exchange {
    const memory: nat -> bool   // whether allocation number k succeeds
    var allocs: nat
    const conf: Conf
    const scene: Scene
    const resp: Response
    const req: Request
    var headersOut: seq<Header>
    var gzipVary: bool
    var gzipTested: bool
    var gzipOk: bool

    constructor (memory: nat -> bool, conf: Conf, scene: Scene, resp: Response, req: Request,
                 gzipVary: bool, gzipTested: bool, gzipOk: bool)
      ensures this.memory == memory && allocs == 0
      ensures this.conf == conf && this.scene == scene && this.resp == resp && this.req == req
      ensures headersOut == resp.headers
      ensures this.gzipVary == gzipVary && this.gzipTested == gzipTested && this.gzipOk == gzipOk
    {
      this.memory, allocs := memory, 0;
      this.conf, this.scene, this.resp, this.req := conf, scene, resp, req;
      headersOut, this.gzipVary, this.gzipTested, this.gzipOk := resp.headers, gzipVary, gzipTested, gzipOk;
    }

    /** Adds a header line, if there is memory for it. */
    method Push(h: Header) returns (ok: bool)
      modifies this`headersOut, this`allocs
      ensures allocs == old(allocs) + 1 && (ok <==> !OutOfMemory(memory, old(allocs), 1))
      ensures headersOut == old(headersOut) + if ok then [h] else []
    {
      MemoryOne(memory, allocs);
      ok := memory(allocs);
      allocs := allocs + 1;
      if ok {
        headersOut := headersOut + [h];
      }
    }

    /** Emits "Vary: Accept-Encoding" by construction, never twice. */
    method VaryAcceptEncoding() returns (ok: bool)
      modifies this`headersOut, this`allocs, this`gzipVary
      ensures gzipVary
      ensures var line := if scene.gzipVary || VaryLists(old(headersOut), ACCEPT_ENCODING) then [] else [VaryLine(ACCEPT_ENCODING)];
              && (ok <==> !OutOfMemory(memory, old(allocs), |line|)) && allocs == old(allocs) + |line|
              && headersOut == old(headersOut) + if ok then line else []
    {
      hide VaryLists, OutOfMemory;
      MemoryOne(memory, allocs);
      gzipVary := true;
      if scene.gzipVary {
        return true;
      }
      var found := FindVary(headersOut, ACCEPT_ENCODING);
      if found {
        return true;
      }
      ok := Push(VaryLine(ACCEPT_ENCODING));
    }

    /** br acceptance over the whole request; a positive answer turns gzip off for the response. */
    method CheckRequest() returns (ok: bool)
      modifies this`gzipTested, this`gzipOk
      ensures ok <==> scene.main && RequestWeight(AcceptLines(req), "br", true) > 0
      ensures if ok then gzipTested && !gzipOk else gzipTested == old(gzipTested) && gzipOk == old(gzipOk)
    {
      if !scene.main {
        return false;
      }
      var q := RequestCodingWeight(AcceptLines(req), "br", true);
      if q <= 0 {
        return false;
      }
      gzipTested := true;
      gzipOk := false;
      return true;
    }

    method IsEligible() returns (ok: bool)
      ensures ok <==> Eligible(conf, resp)
    {
      hide NoTransformIn, IsCacheControl;
      if !conf.enable {
        return false;
      }
      if resp.status != 200 && resp.status != 403 && resp.status != 404 && resp.status != 410 {
        return false;
      }
      if resp.headerOnly || resp.encoded {
        return false;
      }
      if resp.contentLength != -1 && resp.contentLength < conf.minLength {
        return false;
      }
      if conf.maxLength.Some? && resp.contentLength != -1 && resp.contentLength > conf.maxLength.value {
        return false;
      }
      if !resp.typeMatches {
        return false;
      }
      var keep := NoTransform(resp.headers);
      return !keep;
    }

    /** The line named by brotli_bypass_vary. */
    method EmitBypassVary() returns (ok: bool)
      modifies this`headersOut, this`allocs
      ensures (ok <==> !OutOfMemory(memory, old(allocs), |BypassLine(conf)|)) && allocs == old(allocs) + |BypassLine(conf)|
      ensures headersOut == old(headersOut) + if ok then BypassLine(conf) else []
    {
      hide OutOfMemory;
      MemoryOne(memory, allocs);
      if |conf.bypassVary| == 0 {
        return true;
      }
      ok := Push(VaryLine(conf.bypassVary));
    }

    /** The negotiation's Vary line. */
    method EmitVary() returns (ok: bool)
      modifies this`headersOut, this`allocs, this`gzipVary
      ensures var line := NegotiationLine(conf, scene, old(headersOut));
              && (ok <==> !OutOfMemory(memory, old(allocs), |line|)) && allocs == old(allocs) + |line|
              && headersOut == old(headersOut) + if ok then line else []
      ensures gzipVary == (old(gzipVary) || conf.dicts == [])
    {
      hide VaryLists, OutOfMemory;
      if |conf.dicts| > 0 {
        ok := Push(VaryLine(COMBINED_VARY));
      } else {
        ok := VaryAcceptEncoding();
      }
    }

    /** Chooses the coding, and turns gzip off when there is one. */
    method Choose() returns (outcome: Outcome)
      requires Eligible(conf, resp) && !Bypassed(conf, req)
      modifies this`gzipTested, this`gzipOk
      ensures outcome == Decide(conf, scene, resp, req)
      ensures gzipTested == (old(gzipTested) || outcome != Identity) && gzipOk == (old(gzipOk) && outcome == Identity)
    {
      hide Eligible, Negotiated, RequestWeight, Bypassed, ValuesOf;
      var dcb := DcbNegotiate(conf, scene, req);
      if dcb.Some? {
        gzipTested := true;
        gzipOk := false;
        return Dcb(dcb.value);
      }
      var ok := CheckRequest();
      return if ok then Br else Identity;
    }

    /** Prepares the context and announces the coding. */
    method Announce(outcome: Outcome) returns (ok: bool)
      requires outcome != Identity
      modifies this`headersOut, this`allocs
      ensures (ok <==> !OutOfMemory(memory, old(allocs), 2))
      ensures ok ==> allocs == old(allocs) + 2
      ensures headersOut == old(headersOut) + if ok then CodingLine(outcome) else []
    {
      hide OutOfMemory;
      MemoryOne(memory, allocs);
      MemorySplit(memory, allocs, 1, 1);
      ok := memory(allocs);
      allocs := allocs + 1;
      if ok {
        ok := Push(Header(1, "Content-Encoding", if outcome.Dcb? then "dcb" else "br"));
      }
    }

    /**
     The header filter: the decision, and exactly what it adds to the response.  It fails, None,
     exactly when one of the allocations the decision takes does.
     */
    method HeaderFilter() returns (outcome: Option<Outcome>)
      requires headersOut == resp.headers
      modifies this
      ensures outcome.None? <==> OutOfMemory(memory, old(allocs), Allocations(conf, scene, resp, req))
      ensures outcome.None? ==> headersOut < HeadersAfter(conf, scene, resp, req)
      ensures outcome.Some? ==>
                && outcome.value == Decide(conf, scene, resp, req)
                && Justified(conf, scene, resp, req, outcome.value)
                && headersOut == HeadersAfter(conf, scene, resp, req)
                && Labelled(conf, scene, resp, req, outcome.value, headersOut)
                && gzipVary == (old(gzipVary) || (conf.dicts == [] && Open(conf, resp, req)))
                && gzipTested == (old(gzipTested) || outcome.value != Identity)
                && gzipOk == (old(gzipOk) && outcome.value == Identity)
    {
      hide Eligible, VaryLists, Decide, OutOfMemory, NegotiationLine, BypassLine, Justified, Labelled, Compressible;
      MemoryOne(memory, allocs);
      CompressibleIsEligible(conf, resp);
      HeadersAreLabelled(conf, scene, resp, req);
      DecisionIsJustified(conf, scene, resp, req, Decide(conf, scene, resp, req));
      var eligible := IsEligible();
      if !eligible {
        IneligibleIsIdentity(conf, scene, resp, req);
        return Some(Identity);
      }
      ghost var start, n := allocs, |BypassLine(conf)|;
      var ok := EmitBypassVary();
      ghost var h := resp.headers + BypassLine(conf);
      ghost var m := |NegotiationLine(conf, scene, h)|;
      ghost var c := if Decide(conf, scene, resp, req).Identity? then 0 else 2;
      MemorySplit(memory, start, n, if Bypassed(conf, req) then 0 else m + c);
      MemoryOne(memory, start + n);
      if !ok {
        return None;
      }
      if conf.bypass.Some? && conf.bypass.value(req) {
        IneligibleIsIdentity(conf, scene, resp, req);
        return Some(Identity);
      }
      ok := EmitVary();
      MemorySplit(memory, start + n, m, c);
      MemoryOne(memory, start + n + m);
      if !ok {
        return None;
      }
      var chosen := Choose();
      if chosen.Identity? {
        assert headersOut + CodingLine(Identity) == headersOut;
        return Some(Identity);
      }
      ok := Announce(chosen);
      return if ok then Some(chosen) else None;
    }
  }

  lemma IneligibleIsIdentity(conf: Conf, scene: Scene, resp: Response, req: Request)
    requires !Eligible(conf, resp) || Bypassed(conf, req)
    ensures Decide(conf, scene, resp, req) == Identity
  {}

  // ----- cache correctness -----

  /** The response, as sent, varies on the request header `name`. */
  predicate VariesOn(conf: Conf, scene: Scene, resp: Response, req: Request, name: string) {
    || VaryLists(HeadersAfter(conf, scene, resp, req), name)
    || (AsksGzipVary(conf, resp, req) && scene.gzipVary && SameName(ACCEPT_ENCODING, name))
  }

  ghost predicate Agree(a: Request, b: Request, name: string) {
    ValuesOf(a.fields, name) == ValuesOf(b.fields, name)
  }

  /** The bypass predicates look at nothing but the headers that brotli_bypass_vary names. */
  ghost predicate BypassDeclared(conf: Conf) {
    conf.bypass.Some? ==>
      forall a: Request, b: Request ::
        (forall name: string | NamesHeader(conf.bypassVary, name) :: Agree(a, b, name)) ==>
          conf.bypass.value(a) == conf.bypass.value(b)
  }

  lemma TokenFound(s: string, p: nat, a: nat, e: nat, name: string)
    requires p <= a < e <= |s| && s[a..e] == name
    requires (forall k | p <= k < a :: IsOws(s[k])) && !IsOws(s[a]) && !IsOws(s[e - 1])
    requires (forall k | a <= k < e :: s[k] != ',') && (e < |s| ==> s[e] == ',')
    ensures TokenFrom(s, p, name)
    ensures forall other :: e < |s| && TokenFrom(s, e + 1, other) ==> TokenFrom(s, p, other)
  {
    hide CaseEqual, TrimEnd;
    CaseEqualReflexive(name);
    TrimmedTo(s, a, e, e);
    assert SkipOws(s, p) == a && Until(s, a, COMMAS) == e;
  }

  /** A name that neither starts nor ends with whitespace and has no comma. */
  predicate IsName(name: string) {
    name != "" && !IsOws(name[0]) && !IsOws(name[|name| - 1]) && forall k | 0 <= k < |name| :: name[k] != ','
  }

  /** `name` at the head of a value, alone or before a comma, is named; so is what comes after. */
  lemma HeadNamed(name: string, rest: string)
    requires IsName(name)
    ensures NamesHeader(name, name) && NamesHeader(name + (", " + rest), name)
    ensures forall other :: NamesHeader(rest, other) ==> NamesHeader(name + (", " + rest), other)
  {
    hide TokenFrom;
    TokenFound(name, 0, 0, |name|, name);
    var s, n := name + (", " + rest), |name|;
    TokenFound(s, 0, 0, n, name);
    forall other | NamesHeader(rest, other) ensures TokenFrom(s, n + 1, other) {
      TokenShift(s, n + 2, other);
      assert s[n + 2..] == rest;
      TokenSkipsOws(s, n + 1, other);
    }
  }

  lemma TokenSkipsOws(s: string, p: nat, name: string)
    requires p < |s| && IsOws(s[p])
    ensures TokenFrom(s, p, name) == TokenFrom(s, p + 1, name)
  {}

  /** A token scan from `p` sees the suffix only. */
  lemma {:induction false} TokenShift(s: string, p: nat, name: string)
    requires p <= |s|
    ensures NamesHeader(s[p..], name) == TokenFrom(s, p, name)
  {
    TokenShiftFrom(s, p, 0, name);
  }

  lemma {:induction false} TokenShiftFrom(s: string, d: nat, p: nat, name: string)
    requires d + p <= |s|
    ensures TokenFrom(s[d..], p, name) == TokenFrom(s, d + p, name)
    decreases |s| - p
  {
    hide SameName, SkipOws, Until, TrimEnd, TokenFrom, Embedded;
    var x := s[d..];
    TokenStep(x, p, name);
    TokenStep(s, d + p, name);
    ScansShift(s, d, p);
    var a := SkipOws(x, p);
    if a < |x| {
      var e := Until(x, a, COMMAS);
      TrimmedShift(s, d, a, e);
      if e < |x| { TokenShiftFrom(s, d, e + 1, name); }
    }
  }

  lemma ScansShift(s: string, d: nat, p: nat)
    requires d + p <= |s|
    ensures var a := SkipOws(s[d..], p);
            SkipOws(s, d + p) == d + a && Until(s, d + a, COMMAS) == d + Until(s[d..], a, COMMAS)
  {
    hide SkipOws, Until, Embedded;
    EmbeddedSuffix(s, d);
    SkipOwsEmbedded(s[d..], s, d, p);
    UntilEmbedded(s[d..], s, d, SkipOws(s[d..], p), COMMAS);
  }

  lemma TrimmedShift(s: string, d: nat, a: nat, e: nat)
    requires d <= |s| && a <= e <= |s| - d
    ensures var t := TrimEnd(s[d..], a, e); TrimEnd(s, d + a, d + e) == d + t && s[d..][a..t] == s[d + a..d + t]
  {
    hide TrimEnd;
    assert s[d..|s|] == s[d..];
    TrimEndShift(s, d, |s|, a, e);
    SliceOfSlice(s, d, |s|, a, TrimEnd(s[d..], a, e));
  }

  lemma EmbeddedSuffix(s: string, d: nat)
    requires d <= |s|
    ensures Embedded(s[d..], s, d)
  {}

  /** The combined line names all three headers. */
  lemma CombinedNames()
    ensures NamesHeader(COMBINED_VARY, ACCEPT_ENCODING)
    ensures NamesHeader(COMBINED_VARY, AVAILABLE_DICTIONARY)
    ensures NamesHeader(COMBINED_VARY, SEC_FETCH_SITE)
  {
    hide NamesHeader;
    var tail := AVAILABLE_DICTIONARY + (", " + SEC_FETCH_SITE);
    HeadNamed(SEC_FETCH_SITE, "");
    HeadNamed(AVAILABLE_DICTIONARY, SEC_FETCH_SITE);
    HeadNamed(ACCEPT_ENCODING, tail);
  }

  lemma AcceptEncodingNames()
    ensures NamesHeader(ACCEPT_ENCODING, ACCEPT_ENCODING)
  {
    hide NamesHeader;
    HeadNamed(ACCEPT_ENCODING, "");
  }

  lemma VaryPrefix(a: seq<Header>, b: seq<Header>, name: string)
    requires a <= b && VaryLists(a, name)
    ensures VaryLists(b, name)
  {
    hide NamesHeader, IsVary;
    var i :| 0 <= i < |a| && IsVary(a[i]) && NamesHeader(a[i].value, name);
    assert b[i] == a[i];
  }

  lemma BypassLineListed(conf: Conf, scene: Scene, resp: Response, req: Request, name: string)
    requires Eligible(conf, resp) && NamesHeader(conf.bypassVary, name)
    ensures VariesOn(conf, scene, resp, req, name)
  {
    hide Eligible, Decide, VaryLists, NamesHeader, NegotiationLine;
    NothingNamed(name);
    VaryAppend(resp.headers, VaryLine(conf.bypassVary), name);
    VaryIsVary(conf.bypassVary);
    VaryPrefix(resp.headers + BypassLine(conf), HeadersAfter(conf, scene, resp, req), name);
  }

  lemma NothingNamed(name: string)
    ensures !NamesHeader("", name)
  {}

  lemma VaryIsVary(value: string)
    ensures IsVary(VaryLine(value))
  {
    CaseEqualReflexive(VARY);
  }

  lemma NegotiationListed(conf: Conf, scene: Scene, resp: Response, req: Request)
    requires Eligible(conf, resp) && !Bypassed(conf, req)
    ensures VariesOn(conf, scene, resp, req, ACCEPT_ENCODING)
    ensures conf.dicts != [] ==>
              VariesOn(conf, scene, resp, req, AVAILABLE_DICTIONARY) && VariesOn(conf, scene, resp, req, SEC_FETCH_SITE)
  {
    hide Eligible, Decide, VaryLists, NamesHeader, BypassLine, Bypassed, IsVary, CaseEqual;
    CombinedNames();
    AcceptEncodingNames();
    CaseEqualReflexive(ACCEPT_ENCODING);
    var h, all := resp.headers + BypassLine(conf), HeadersAfter(conf, scene, resp, req);
    if conf.dicts != [] {
      VaryIsVary(COMBINED_VARY);
      NamedByAppend(h, COMBINED_VARY, all, ACCEPT_ENCODING);
      NamedByAppend(h, COMBINED_VARY, all, AVAILABLE_DICTIONARY);
      NamedByAppend(h, COMBINED_VARY, all, SEC_FETCH_SITE);
    } else if !scene.gzipVary {
      if VaryLists(h, ACCEPT_ENCODING) {
        VaryPrefix(h, all, ACCEPT_ENCODING);
      } else {
        NamedByAppend(h, ACCEPT_ENCODING, all, ACCEPT_ENCODING);
      }
    }
  }

  lemma NamedByAppend(h: seq<Header>, value: string, all: seq<Header>, name: string)
    requires h + [VaryLine(value)] <= all && NamesHeader(value, name)
    ensures VaryLists(all, name)
  {
    hide NamesHeader, VaryLists, IsVary;
    VaryIsVary(value);
    VaryAppend(h, VaryLine(value), name);
    VaryPrefix(h + [VaryLine(value)], all, name);
  }

  /**
   Cache correctness.  Two requests that agree on every header named in the Vary set of the
   response to the first get the same outcome: identity, br, or dcb with the same dictionary.
   */
  lemma CacheCorrect(conf: Conf, scene: Scene, resp: Response, a: Request, b: Request)
    requires BypassDeclared(conf)
    requires forall name: string | VariesOn(conf, scene, resp, a, name) :: Agree(a, b, name)
    ensures Decide(conf, scene, resp, a) == Decide(conf, scene, resp, b)
  {
    hide Eligible, VariesOn, RequestWeight, NamesHeader, ValuesOf, SameSite, FindDict;
    if Eligible(conf, resp) {
      forall name: string | NamesHeader(conf.bypassVary, name) ensures Agree(a, b, name) {
        BypassLineListed(conf, scene, resp, a, name);
      }
      if !Bypassed(conf, a) {
        NegotiationListed(conf, scene, resp, a);
        assert Agree(a, b, ACCEPT_ENCODING);
        if conf.dicts != [] {
          assert Agree(a, b, AVAILABLE_DICTIONARY) && Agree(a, b, SEC_FETCH_SITE);
        } else {
          NoDicts(conf, scene, a);
          NoDicts(conf, scene, b);
        }
      }
    }
  }

  lemma NoDicts(conf: Conf, scene: Scene, req: Request)
    requires conf.dicts == []
    ensures Negotiated(conf, scene, req) == None
  {}

  // ----- dictionaries -----

  predicate DistinctHashes(dicts: seq<Dict>) {
    forall i, j | 0 <= i < j < |dicts| :: dicts[i].hash != dicts[j].hash
  }

  /** With distinct hashes the search finds the one dictionary with that hash, if there is one. */
  lemma {:induction false} FindDictFinds(dicts: seq<Dict>, hash: seq<byte>, d: Dict)
    requires DistinctHashes(dicts)
    ensures FindDict(dicts, hash) == Some(d) <==> d in dicts && d.hash == hash
    decreases |dicts|
  {
    if dicts != [] {
      FindDictFinds(dicts[1..], hash, d);
      assert forall j | 0 <= j < |dicts[1..]| :: dicts[1..][j] == dicts[j + 1];
      if d in dicts && d != dicts[0] { assert d in dicts[1..]; }
    }
  }

  /** The order of the list makes no difference. */
  lemma OrderIrrelevant(xs: seq<Dict>, ys: seq<Dict>, hash: seq<byte>)
    requires DistinctHashes(xs) && DistinctHashes(ys) && forall d :: d in xs <==> d in ys
    ensures FindDict(xs, hash) == FindDict(ys, hash)
  {
    hide FindDict, DistinctHashes;
    var x, y := FindDict(xs, hash), FindDict(ys, hash);
    if x.Some? {
      FindDictFinds(xs, hash, x.value);
      FindDictFinds(ys, hash, x.value);
    } else if y.Some? {
      FindDictFinds(ys, hash, y.value);
      FindDictFinds(xs, hash, y.value);
    }
  }

  /** dcb is served only on the main request of a secure connection that asked for it by name. */
  lemma DcbIsGuarded(conf: Conf, scene: Scene, resp: Response, req: Request, d: Dict)
    requires Decide(conf, scene, resp, req) == Dcb(d)
    ensures d in conf.dicts && Wanted(scene, req) == Some(d.hash) && |d.hash| == DIGEST_LEN
    ensures scene.main && (conf.assumeSecure || scene.ssl)
    ensures RequestWeight(AcceptLines(req), "dcb", false) > 0
    ensures match FirstOf(req.fields, SEC_FETCH_SITE) case None => true case Some(v) => SameSite(v)
  {
    hide Eligible, RequestWeight, ValuesOf, SameSite;
    FoundIsListed(conf.dicts, Wanted(scene, req).value);
  }

  lemma {:induction false} FoundIsListed(dicts: seq<Dict>, hash: seq<byte>)
    ensures var d := FindDict(dicts, hash); d.Some? ==> d.value in dicts && d.value.hash == hash
    decreases |dicts|
  {
    if dicts != [] { FoundIsListed(dicts[1..], hash); }
  }
}
