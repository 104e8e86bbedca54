/**
 The dictionary directives of a configuration and what an accepted sequence of them guarantees.
 */
module DictLines {
  import opened Options
  import opened Octets
  import opened Os
  import opened StrictWalk
  import opened Sha256Spec
  import opened Negotiation

  const MAX_DICT_SIZE: nat := 10 * 1024 * 1024

  datatype Directive =
    | StrictPath(on: bool)
    | TrustHashes(on: bool)
    | DictFile(location: nat, path: string, literal: Option<string>)

  // ----- hash literals -----

  function HexDigit(c: char): Option<nat> {
    if '0' <= c <= '9' then Some(c as nat - '0' as nat)
    else if 'a' <= c <= 'f' then Some(c as nat - 'a' as nat + 10)
    else if 'A' <= c <= 'F' then Some(c as nat - 'A' as nat + 10)
    else None
  }

  predicate IsHex(s: string) {
    forall k | 0 <= k < |s| :: HexDigit(s[k]).Some?
  }

  /** Two digits to a byte. */
  function HexBytes(s: string): seq<byte>
    requires IsHex(s) && |s| % 2 == 0
  {
    seq(|s| / 2, i requires 0 <= i < |s| / 2 => (16 * HexDigit(s[2 * i]).value + HexDigit(s[2 * i + 1]).value) as byte)
  }

  function Literal(s: string): Option<seq<byte>> {
    if |s| == 2 * DIGEST_LEN && IsHex(s) then Some(HexBytes(s)) else None
  }

  function Given(literal: Option<string>): Option<seq<byte>> {
    if literal.Some? then Literal(literal.value) else None
  }

  // ----- a line that was loaded -----

  /**
   A dictionary line as it was loaded: the literal it carried, the two policies in force,
   the file read, and the number of the call that began to open it.
   */
  datatype Line = Line(
    location: nat,
    dict: Dict,
    literal: Option<seq<byte>>,
    strict: bool,
    trust: bool,
    inode: Inode,
    openedAt: nat)
  {
    /** The hash was computed rather than taken from the literal. */
    predicate Hashed() {
      !(trust && literal.Some?)
    }

    /** When the file itself was checked. */
    function CheckedAt(env: Env): nat {
      CheckTime(env, openedAt, dict.file, strict)
    }

    predicate Sound(env: Env) {
      && OpenedAs(env, openedAt, dict.file, strict) == Some(inode)
      && GoodFile(env, CheckedAt(env), inode, strict, dict.bytes)
      && (Hashed() ==> dict.hash == Digest(dict.bytes))
      && (literal.Some? ==> dict.hash == literal.value)
    }
  }

  /** The file `path` leads to under either policy. */
  function OpenedAs(env: Env, t: nat, path: string, strict: bool): Option<Inode> {
    if strict then Walk(env, t, path).leaf else env.Resolved(t, path)
  }

  /** The number of the call after the file is opened. */
  function CheckTime(env: Env, t: nat, path: string, strict: bool): nat {
    t + if strict then |Walk(env, t, path).calls| else 1
  }

  /** The file checked by call `v` is a dictionary, and `bytes` is what it holds. */
  predicate GoodFile(env: Env, v: nat, i: Inode, strict: bool, bytes: seq<byte>) {
    && !env.fails(v) && env.kind(i) == Regular
    && (strict ==> env.Vetted(v, i))
    && 0 < |bytes| == env.stat(v, i).size <= MAX_DICT_SIZE
    && bytes <= env.content(i)
  }

  /** Nobody but root and the process can change the file checked by call `v`. */
  ghost predicate Guarded(env: Env, v: nat, i: Inode) {
    && env.stat(v, i).uid in {0, env.euid}
    && env.stat(v, i).mode & 0x10 == 0 && env.stat(v, i).mode & 0x02 == 0
  }

  /** What a loaded dictionary is worth to those who rely on it. */
  ghost predicate Reliable(env: Env, l: Line) {
    var v, bytes := l.openedAt + (if l.strict then |Walk(env, l.openedAt, l.dict.file).calls| else 1), l.dict.bytes;
    && (l.strict ==> Walk(env, l.openedAt, l.dict.file).leaf == Some(l.inode) && Guarded(env, v, l.inode))
    && (!l.strict ==> env.Resolved(l.openedAt, l.dict.file) == Some(l.inode))
    && !env.fails(v) && env.kind(l.inode) == Regular && env.stat(v, l.inode).size == |bytes|
    && 0 < |bytes| <= 10_485_760 && bytes <= env.content(l.inode)
    && (l.literal.Some? ==> l.dict.hash == l.literal.value)
    && (l.literal == None || !l.trust ==> l.dict.hash == Digest(bytes))
  }

  lemma SoundIsReliable(env: Env, l: Line)
    ensures l.Sound(env) <==> Reliable(env, l)
  {
    hide Digest, Walk;
    VettedExactly(env, l.CheckedAt(env), l.inode);
  }

  function Last<T>(s: seq<T>): T requires s != [] { s[|s| - 1] }

  function Init<T>(s: seq<T>): seq<T> requires s != [] { s[..|s| - 1] }

  /** The number of lines whose hash was computed. */
  function CountHashed(lines: seq<Line>): nat {
    if lines == [] then 0
    else CountHashed(Init(lines)) + if Last(lines).Hashed() then 1 else 0
  }

  /** The number of lines without a literal. */
  function CountBare(lines: seq<Line>): nat {
    if lines == [] then 0
    else CountBare(Init(lines)) + if Last(lines).literal.None? then 1 else 0
  }

  /** The dictionaries of one location, in order. */
  function DictsOf(lines: seq<Line>, location: nat): seq<Dict> {
    if lines == [] then []
    else DictsOf(Init(lines), location) + if Last(lines).location == location then [Last(lines).dict] else []
  }

  // ----- from directives to lines -----

  /** `lines` are the dictionary lines of `ds`, each loaded under the policies declared above it. */
  ghost predicate Follows(ds: seq<Directive>, lines: seq<Line>, fullName: string -> Option<string>) {
    if ds == [] then lines == []
    else match Last(ds)
      case DictFile(location, path, literal) =>
        && lines != []
        && Follows(Init(ds), Init(lines), fullName)
        && var line := Last(lines);
           && line.location == location
           && fullName(path) == Some(line.dict.file)
           && line.literal == Given(literal)
           && line.literal.Some? == literal.Some?
           && line.strict == (StrictPath(true) in Init(ds))
           && line.trust == (TrustHashes(true) in Init(ds))
      case _ => Follows(Init(ds), lines, fullName)
  }

  /** Each policy is declared once at most. */
  predicate Once(ds: seq<Directive>) {
    forall i, j | 0 <= i < j < |ds| ::
      !(ds[i].StrictPath? && ds[j].StrictPath?) && !(ds[i].TrustHashes? && ds[j].TrustHashes?)
  }

  /** A dictionary line stands above `strict_path on`. */
  predicate StrictLate(ds: seq<Directive>) {
    exists i, j | 0 <= i < j < |ds| :: ds[i].DictFile? && ds[j] == StrictPath(true)
  }

  /** A line with a literal stands above `trust_hashes on`. */
  predicate TrustLate(ds: seq<Directive>) {
    exists i, j | 0 <= i < j < |ds| :: ds[i].DictFile? && ds[i].literal.Some? && ds[j] == TrustHashes(true)
  }

  /** How many dictionary lines stand among `ds`. */
  function CountDicts(ds: seq<Directive>): nat {
    if ds == [] then 0 else CountDicts(ds[1..]) + if ds[0].DictFile? then 1 else 0
  }

  lemma {:induction false} CountDictsInit(ds: seq<Directive>)
    requires ds != []
    ensures CountDicts(ds) == CountDicts(Init(ds)) + if Last(ds).DictFile? then 1 else 0
  {
    if |ds| > 1 {
      CountDictsInit(ds[1..]);
      assert Init(ds)[1..] == Init(ds[1..]);
    }
  }

  /** Each dictionary directive has its own line, in the same order, loaded under the policies above it. */
  lemma {:induction false} LineOfDirective(ds: seq<Directive>, lines: seq<Line>, fullName: string -> Option<string>, i: nat)
    requires Follows(ds, lines, fullName) && i < |ds| && ds[i].DictFile?
    ensures |lines| == CountDicts(ds)
    ensures var k := CountDicts(ds[..i]);
            && k < |lines| && lines[k].location == ds[i].location
            && fullName(ds[i].path) == Some(lines[k].dict.file)
            && lines[k].literal == (if ds[i].literal == None then None else Literal(ds[i].literal.value))
            && (ds[i].literal.Some? ==> lines[k].literal.Some?)
            && lines[k].strict == (StrictPath(true) in ds[..i]) && lines[k].trust == (TrustHashes(true) in ds[..i])
    decreases |ds|
  {
    hide Literal;
    var last := Last(ds);
    CountDictsInit(ds);
    FollowsCount(Init(ds), if last.DictFile? then Init(lines) else lines, fullName);
    if i == |ds| - 1 {
      assert ds[..i] == Init(ds);
    } else {
      assert ds[..i] == Init(ds)[..i] && Init(ds)[i] == ds[i];
      LineOfDirective(Init(ds), if last.DictFile? then Init(lines) else lines, fullName, i);
    }
  }

  lemma {:induction false} FollowsCount(ds: seq<Directive>, lines: seq<Line>, fullName: string -> Option<string>)
    requires Follows(ds, lines, fullName)
    ensures |lines| == CountDicts(ds)
    decreases |ds|
  {
    if ds != [] {
      CountDictsInit(ds);
      FollowsCount(Init(ds), if Last(ds).DictFile? then Init(lines) else lines, fullName);
    }
  }

  /** Line by line: what a line adds to the list of a location and to the two counts. */
  lemma {:induction false} LineByLine(l: Line, before: seq<Line>, after: seq<Line>, location: nat)
    ensures DictsOf([l], location) == (if l.location == location then [l.dict] else [])
    ensures CountBare([l]) == (if l.literal == None then 1 else 0)
    ensures CountHashed([l]) == (if l.literal.Some? && l.trust then 0 else 1)
    ensures DictsOf(before + after, location) == DictsOf(before, location) + DictsOf(after, location)
    ensures CountBare(before + after) == CountBare(before) + CountBare(after)
    ensures CountHashed(before + after) == CountHashed(before) + CountHashed(after)
    decreases |after|
  {
    OneLine(l, location);
    var all := before + after;
    if after == [] {
      assert all == before;
    } else {
      LineByLine(l, before, Init(after), location);
      assert Init(all) == before + Init(after) && Last(all) == Last(after);
    }
  }

  lemma OneLine(l: Line, location: nat)
    ensures DictsOf([l], location) == (if l.location == location then [l.dict] else [])
    ensures CountBare([l]) == (if l.literal == None then 1 else 0)
    ensures CountHashed([l]) == (if l.literal.Some? && l.trust then 0 else 1)
  {
    assert Init([l]) == [] && Last([l]) == l;
  }

  // ----- the latches -----

  /** The first file loaded while strict mode was not on. */
  function FirstUnchecked(lines: seq<Line>): Option<string> {
    if lines == [] then None
    else
      var before := FirstUnchecked(Init(lines));
      if before.Some? || Last(lines).strict then before else Some(Last(lines).dict.file)
  }

  /** The first file whose literal was verified. */
  function FirstVerified(lines: seq<Line>): Option<string> {
    if lines == [] then None
    else
      var before := FirstVerified(Init(lines));
      if before.Some? || Last(lines).trust || Last(lines).literal.None? then before else Some(Last(lines).dict.file)
  }

  lemma {:induction false} UncheckedLate(ds: seq<Directive>, lines: seq<Line>, fullName: string -> Option<string>)
    requires Follows(ds, lines, fullName) && Once(ds)
    ensures StrictPath(true) in ds ==> (FirstUnchecked(lines).Some? <==> StrictLate(ds))
    ensures StrictPath(true) !in ds ==> (FirstUnchecked(lines).Some? <==> lines != [])
    decreases |ds|
  {
    if ds != [] {
      var init, last := Init(ds), Last(ds);
      assert ds == init + [last];
      UncheckedLate(init, if last.DictFile? then Init(lines) else lines, fullName);
      StrictLateStep(init, last);
      if !last.DictFile? { AnyDict(init, lines, fullName); }
    }
  }

  lemma StrictLateStep(ds: seq<Directive>, d: Directive)
    ensures StrictLate(ds + [d]) <==> StrictLate(ds) || (d == StrictPath(true) && exists i | 0 <= i < |ds| :: ds[i].DictFile?)
  {
    var all := ds + [d];
    if StrictLate(ds) {
      var i, j :| 0 <= i < j < |ds| && ds[i].DictFile? && ds[j] == StrictPath(true);
      assert all[i].DictFile? && all[j] == StrictPath(true);
    }
    if i :| 0 <= i < |ds| && ds[i].DictFile? && d == StrictPath(true) {
      assert all[i].DictFile? && all[|ds|] == StrictPath(true);
    }
  }

  lemma {:induction false} AnyDict(ds: seq<Directive>, lines: seq<Line>, fullName: string -> Option<string>)
    requires Follows(ds, lines, fullName)
    ensures lines != [] <==> exists i | 0 <= i < |ds| :: ds[i].DictFile?
    decreases |ds|
  {
    if ds != [] {
      var init, last := Init(ds), Last(ds);
      AnyDict(init, if last.DictFile? then Init(lines) else lines, fullName);
      if last.DictFile? { assert ds[|ds| - 1].DictFile?; }
    }
  }

  predicate HasLiteral(d: Directive) {
    d.DictFile? && d.literal.Some?
  }

  lemma {:induction false} VerifiedLate(ds: seq<Directive>, lines: seq<Line>, fullName: string -> Option<string>)
    requires Follows(ds, lines, fullName) && Once(ds)
    ensures TrustHashes(true) in ds ==> (FirstVerified(lines).Some? <==> TrustLate(ds))
    ensures TrustHashes(true) !in ds ==> (FirstVerified(lines).Some? <==> exists i | 0 <= i < |ds| :: HasLiteral(ds[i]))
    decreases |ds|
  {
    if ds != [] {
      var init, last := Init(ds), Last(ds);
      assert ds == init + [last];
      VerifiedLate(init, if last.DictFile? then Init(lines) else lines, fullName);
      TrustLateStep(init, last);
      if HasLiteral(last) { assert HasLiteral(ds[|ds| - 1]); }
      assert (exists i | 0 <= i < |ds| :: HasLiteral(ds[i])) <==> HasLiteral(last) || exists i | 0 <= i < |init| :: HasLiteral(init[i]) by {
        if i :| 0 <= i < |init| && HasLiteral(init[i]) { assert HasLiteral(ds[i]); }
      }
    }
  }

  lemma TrustLateStep(ds: seq<Directive>, d: Directive)
    ensures TrustLate(ds + [d]) <==> TrustLate(ds) || (d == TrustHashes(true) && exists i | 0 <= i < |ds| :: HasLiteral(ds[i]))
  {
    var all := ds + [d];
    if TrustLate(ds) {
      var i, j :| 0 <= i < j < |ds| && ds[i].DictFile? && ds[i].literal.Some? && ds[j] == TrustHashes(true);
      assert all[i].DictFile? && all[j] == TrustHashes(true);
    }
    if i :| 0 <= i < |ds| && HasLiteral(ds[i]) && d == TrustHashes(true) {
      assert all[i].DictFile? && all[|ds|] == TrustHashes(true);
    }
    if TrustLate(all) && !TrustLate(ds) {
      var i, j :| 0 <= i < j < |all| && all[i].DictFile? && all[i].literal.Some? && all[j] == TrustHashes(true);
      assert HasLiteral(ds[i]);
    }
  }

  lemma {:induction false} UncheckedExactly(lines: seq<Line>)
    ensures FirstUnchecked(lines).None? <==> forall l | l in lines :: l.strict
    decreases |lines|
  {
    if lines != [] {
      UncheckedExactly(Init(lines));
      assert lines == Init(lines) + [Last(lines)];
    }
  }

  /** No literal was verified exactly when only lines without one were hashed. */
  lemma {:induction false} VerifiedExactly(lines: seq<Line>)
    ensures CountBare(lines) <= CountHashed(lines) <= |lines|
    ensures FirstVerified(lines).None? <==> CountHashed(lines) == CountBare(lines)
    decreases |lines|
  {
    if lines != [] { VerifiedExactly(Init(lines)); }
  }

  lemma {:induction false} Untrusting(ds: seq<Directive>, lines: seq<Line>, fullName: string -> Option<string>)
    requires Follows(ds, lines, fullName) && TrustHashes(true) !in ds
    ensures CountHashed(lines) == |lines| && forall l | l in lines :: l.Hashed()
    decreases |ds|
  {
    if ds != [] {
      var init, last := Init(ds), Last(ds);
      assert ds == init + [last];
      Untrusting(init, if last.DictFile? then Init(lines) else lines, fullName);
      if last.DictFile? { assert lines == Init(lines) + [Last(lines)]; }
    }
  }

  /** What a configuration means once it is accepted. */
  lemma AcceptedMeans(env: Env, ds: seq<Directive>, lines: seq<Line>, fullName: string -> Option<string>)
    requires Follows(ds, lines, fullName) && Once(ds) && !StrictLate(ds) && !TrustLate(ds)
    requires forall l | l in lines :: l.Sound(env)
    ensures StrictPath(true) in ds ==>
              forall l | l in lines :: Walk(env, l.openedAt, l.dict.file).leaf == Some(l.inode) && env.Vetted(l.CheckedAt(env), l.inode)
    ensures TrustHashes(true) in ds ==> CountHashed(lines) == CountBare(lines)
    ensures TrustHashes(true) !in ds ==> CountHashed(lines) == |lines| && forall l | l in lines :: l.dict.hash == Digest(l.dict.bytes)
    ensures forall l | l in lines :: l.literal.Some? ==> l.dict.hash == l.literal.value
    ensures forall l | l in lines :: Reliable(env, l)
  {
    hide Digest, Walk, Follows, Once, StrictLate, TrustLate, Reliable;
    forall l | l in lines ensures Reliable(env, l) { SoundIsReliable(env, l); }
    UncheckedLate(ds, lines, fullName);
    VerifiedLate(ds, lines, fullName);
    UncheckedExactly(lines);
    VerifiedExactly(lines);
    if TrustHashes(true) !in ds { Untrusting(ds, lines, fullName); }
  }

  lemma {:induction false} DictsAreLines(lines: seq<Line>, location: nat, d: Dict)
    requires d in DictsOf(lines, location)
    ensures exists l | l in lines :: l.dict == d
    decreases |lines|
  {
    var last := Last(lines);
    assert last in lines;
    if last.dict != d || last.location != location {
      DictsAreLines(Init(lines), location, d);
      var l :| l in Init(lines) && l.dict == d;
      assert l in lines;
    }
  }

  /** Without trusted literals a dcb response is compressed with the very bytes whose SHA-256 the request named. */
  lemma ServedIsWhatWasNamed(env: Env, ds: seq<Directive>, lines: seq<Line>, fullName: string -> Option<string>, location: nat,
                             conf: Conf, scene: Scene, resp: Response, req: Request, d: Dict)
    requires Follows(ds, lines, fullName) && (forall l | l in lines :: l.Sound(env)) && TrustHashes(true) !in ds
    requires conf.dicts == DictsOf(lines, location) && Decide(conf, scene, resp, req) == Dcb(d)
    ensures Wanted(scene, req) == Some(Digest(d.bytes))
  {
    hide Digest, Decide, DictsOf, Follows, Wanted, GoodFile, OpenedAs, Line.CheckedAt, DcbAllowed;
    DcbIsGuarded(conf, scene, resp, req, d);
    DictsAreLines(lines, location, d);
    Untrusting(ds, lines, fullName);
  }

  // ----- literals -----

  function HexChar(n: nat): char
    requires n < 16
  {
    "0123456789abcdef"[n]
  }

  function HexDump(bytes: seq<byte>): string {
    seq(2 * |bytes|, i requires 0 <= i < 2 * |bytes| => HexChar(if i % 2 == 0 then bytes[i / 2] / 16 else bytes[i / 2] % 16))
  }

  lemma HexCharReads(n: nat)
    requires n < 16
    ensures HexDigit(HexChar(n)) == Some(n)
  {}

  lemma DumpAt(bytes: seq<byte>, i: nat)
    requires i < |bytes|
    ensures HexDigit(HexDump(bytes)[2 * i]) == Some(bytes[i] / 16)
    ensures HexDigit(HexDump(bytes)[2 * i + 1]) == Some(bytes[i] % 16)
  {
    hide HexDigit, HexChar;
    HexCharReads(bytes[i] / 16);
    HexCharReads(bytes[i] % 16);
  }

  lemma DumpIsHex(bytes: seq<byte>)
    ensures IsHex(HexDump(bytes))
  {
    hide HexDigit, HexDump;
    var s := HexDump(bytes);
    DumpLength(bytes);
    forall k | 0 <= k < |s| ensures HexDigit(s[k]).Some? {
      DumpAt(bytes, k / 2);
      assert k == 2 * (k / 2) || k == 2 * (k / 2) + 1;
    }
  }

  lemma DumpLength(bytes: seq<byte>)
    ensures |HexDump(bytes)| == 2 * |bytes|
  {
    hide HexChar;
  }

  /** A digest printed as in the mismatch message is accepted as its own literal. */
  lemma LiteralReadsDump(bytes: seq<byte>)
    requires |bytes| == DIGEST_LEN
    ensures Literal(HexDump(bytes)) == Some(bytes)
  {
    hide HexDigit, HexDump, IsHex;
    var s := HexDump(bytes);
    DumpIsHex(bytes);
    DumpLength(bytes);
    forall i | 0 <= i < |bytes| ensures HexBytes(s)[i] == bytes[i] {
      DumpAt(bytes, i);
      assert bytes[i] == 16 * (bytes[i] / 16) + bytes[i] % 16;
    }
    assert HexBytes(s) == bytes;
  }

  /** `c` is the digit of value `n`, in either case. */
  predicate Reads(c: char, n: nat) {
    n < 16 && (c == "0123456789abcdef"[n] || c == "0123456789ABCDEF"[n])
  }

  lemma DigitReads(c: char, n: nat)
    requires n < 16
    ensures HexDigit(c) == Some(n) <==> Reads(c, n)
  {
    if n < 10 {
      assert "0123456789abcdef"[n] as int == '0' as int + n && "0123456789ABCDEF"[n] as int == '0' as int + n;
    } else {
      assert "0123456789abcdef"[n] as int == 'a' as int + n - 10 && "0123456789ABCDEF"[n] as int == 'A' as int + n - 10;
    }
  }

  lemma DigitIsSmall(c: char)
    ensures HexDigit(c).Some? ==> HexDigit(c).value < 16
  {}

  /** A literal is read exactly when it is 64 digits in either case, two for each byte, the high one first. */
  lemma LiteralExactly(s: string, bytes: seq<byte>)
    ensures Literal(s) == Some(bytes) <==>
              && |s| == 64 && |bytes| == 32
              && forall i | 0 <= i < 32 :: Reads(s[2 * i], bytes[i] / 16) && Reads(s[2 * i + 1], bytes[i] % 16)
  {
    hide HexDigit, Reads;
    if |s| == 64 && |bytes| == 32 {
      forall k | 0 <= k < 64 ensures HexDigit(s[k]).Some? ==> HexDigit(s[k]).value < 16 { DigitIsSmall(s[k]); }
      forall i | 0 <= i < 32
        ensures HexDigit(s[2 * i]) == Some(bytes[i] / 16) <==> Reads(s[2 * i], bytes[i] / 16)
        ensures HexDigit(s[2 * i + 1]) == Some(bytes[i] % 16) <==> Reads(s[2 * i + 1], bytes[i] % 16)
      {
        DigitReads(s[2 * i], bytes[i] / 16);
        DigitReads(s[2 * i + 1], bytes[i] % 16);
      }
      LiteralByPairs(s, bytes);
    }
  }

  lemma LiteralByPairs(s: string, bytes: seq<byte>)
    requires |s| == 64 && |bytes| == 32 && forall k | 0 <= k < 64 :: HexDigit(s[k]).Some? ==> HexDigit(s[k]).value < 16
    ensures Literal(s) == Some(bytes) <==>
              forall i | 0 <= i < 32 :: HexDigit(s[2 * i]) == Some(bytes[i] / 16) && HexDigit(s[2 * i + 1]) == Some(bytes[i] % 16)
  {
    hide HexDigit;
    if Literal(s) == Some(bytes) {
      forall i | 0 <= i < 32 ensures HexDigit(s[2 * i]) == Some(bytes[i] / 16) && HexDigit(s[2 * i + 1]) == Some(bytes[i] % 16) {
        assert bytes[i] == 16 * HexDigit(s[2 * i]).value + HexDigit(s[2 * i + 1]).value;
      }
    }
    if forall i | 0 <= i < 32 :: HexDigit(s[2 * i]) == Some(bytes[i] / 16) && HexDigit(s[2 * i + 1]) == Some(bytes[i] % 16) {
      forall k | 0 <= k < 64 ensures HexDigit(s[k]).Some? {
        var i := k / 2;
        assert HexDigit(s[2 * i]).Some? && HexDigit(s[2 * i + 1]).Some?;
        assert k == 2 * i || k == 2 * i + 1;
      }
      assert HexBytes(s) == bytes;
    }
  }
}
