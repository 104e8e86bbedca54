/**
 Loading dictionaries while the configuration is parsed: the shared dictionary state of the
 configuration, updated directive by directive.
 */
module DictConfig {
  import opened Options
  import opened Octets
  import opened Os
  import opened ReadDict
  import opened StrictWalk
  import opened Sha256Spec
  import opened Sha256
  import opened Negotiation
  import opened DictLines

  /** Why a dictionary line is refused. */
  datatype Refusal =
    | NoMemory | BadLiteral | NotOpened
    | NotStatted | NotRegular | BadOwner | BadMode | TooLarge | Empty
    | ReadFailed | Incomplete | CloseFailed
    | Mismatch | Duplicate

  datatype Result<T> = Loaded(value: T) | Refused(why: Refusal)

  /** The reason given for turning that file down is true; `end` is the number of calls so far. */
  ghost predicate FileFault(env: Env, v: nat, end: nat, i: Inode, strict: bool, why: Refusal) {
    match why
    case NotStatted => env.fails(v)
    case NotRegular => env.kind(i) != Regular
    case BadOwner => strict && !env.OwnerOk(v, i)
    case BadMode => strict && !env.ModeOk(v, i)
    case TooLarge => env.stat(v, i).size > MAX_DICT_SIZE
    case Empty => env.stat(v, i).size == 0
    case NoMemory => true
    case ReadFailed => exists t: nat | v < t < end :: env.answer(t) == Broken
    case Incomplete => |env.content(i)| < env.stat(v, i).size
    case CloseFailed => exists t: nat | v < t < end :: env.fails(t)
    case _ => false
  }

  /** The hash a dictionary is listed under. */
  function KeyOf(given: Option<seq<byte>>, trust: bool, bytes: seq<byte>): seq<byte> {
    if given.Some? && trust then given.value else Digest(bytes)
  }

  predicate Listed(dicts: seq<Dict>, hash: seq<byte>) {
    exists d | d in dicts :: d.hash == hash
  }

  /** What becomes of a dictionary with these bytes in a location that has `dicts`. */
  function Verdict(given: Option<seq<byte>>, trust: bool, bytes: seq<byte>, dicts: seq<Dict>): Option<Refusal> {
    if given.Some? && !trust && given.value != Digest(bytes) then Some(Mismatch)
    else if Listed(dicts, KeyOf(given, trust, bytes)) then Some(Duplicate)
    else None
  }

  method ParseDigit(c: char) returns (d: Option<nat>)
    ensures d == HexDigit(c) && (d.Some? ==> d.value < 16)
  {
    d := if '0' <= c <= '9' then Some(c as nat - '0' as nat)
         else if 'a' <= c <= 'f' then Some(c as nat - 'a' as nat + 10)
         else if 'A' <= c <= 'F' then Some(c as nat - 'A' as nat + 10)
         else None;
  }

  method ParseLiteral(s: string) returns (hash: Option<seq<byte>>)
    ensures hash == Literal(s)
  {
    if |s| != 2 * DIGEST_LEN {
      return None;
    }
    var bytes: seq<byte> := [];
    for i := 0 to DIGEST_LEN
      invariant |bytes| == i && forall k | 0 <= k < 2 * i :: HexDigit(s[k]).Some?
      invariant forall k | 0 <= k < i :: bytes[k] == 16 * HexDigit(s[2 * k]).value + HexDigit(s[2 * k + 1]).value
    {
      var hi := ParseDigit(s[2 * i]);
      var lo := ParseDigit(s[2 * i + 1]);
      if hi.None? || lo.None? {
        return None;
      }
      bytes := bytes + [16 * hi.value + lo.value];
    }
    assert bytes == HexBytes(s);
    hash := Some(bytes);
  }

  /** The reason given for turning a line with a readable literal down is true. */
  ghost predicate OpenedFault(env: Env, t: nat, end: nat, file: string, given: Option<seq<byte>>, strict: bool, trust: bool,
                              dicts: seq<Dict>, why: Refusal) {
    match OpenedAs(env, t, file, strict)
    case None => why == NotOpened
    case Some(i) =>
      var v := CheckTime(env, t, file, strict);
      || FileFault(env, v, end, i, strict, why)
      || exists bytes :: GoodFile(env, v, i, strict, bytes) && Verdict(given, trust, bytes, dicts) == Some(why)
  }

  ghost predicate LineFault(env: Env, t: nat, end: nat, full: Option<string>, literal: Option<string>, strict: bool, trust: bool,
                            dicts: seq<Dict>, why: Refusal) {
    if full.None? then why == NoMemory
    else if literal.Some? && Given(literal).None? then why == BadLiteral
    else why == NoMemory || OpenedFault(env, t, end, full.value, Given(literal), strict, trust, dicts, why)
  }

  /** What each refusal tells the administrator about the file that the line leads to. */
  ghost predicate Blames(env: Env, v: nat, i: Inode, given: Option<seq<byte>>, strict: bool, trust: bool, dicts: seq<Dict>, why: Refusal) {
    var st, data := env.stat(v, i), env.content(i);
    match why
    case NotStatted => env.fails(v)
    case NotRegular => env.kind(i) != Regular
    case BadOwner => strict && st.uid != 0 && st.uid != env.euid
    case BadMode => strict && (st.mode & 0x10 != 0 || st.mode & 0x02 != 0)
    case TooLarge => st.size > 10_485_760
    case Empty => st.size == 0
    case Incomplete => |data| < st.size
    case Mismatch => !trust && given.Some? && st.size <= |data| && given.value != Digest(data[..st.size])
    case Duplicate =>
      st.size <= |data| && exists d | d in dicts :: d.hash == if given.Some? && trust then given.value else Digest(data[..st.size])
    case _ => why in {NoMemory, ReadFailed, CloseFailed}
  }

  lemma FaultBlames(env: Env, v: nat, end: nat, i: Inode, given: Option<seq<byte>>, strict: bool, trust: bool, dicts: seq<Dict>, why: Refusal)
    requires FileFault(env, v, end, i, strict, why)
    ensures Blames(env, v, i, given, strict, trust, dicts, why)
  {
    TwoBits(env.stat(v, i).mode);
  }

  lemma VerdictBlames(env: Env, v: nat, i: Inode, given: Option<seq<byte>>, strict: bool, trust: bool, dicts: seq<Dict>, bytes: seq<byte>)
    requires GoodFile(env, v, i, strict, bytes) && Verdict(given, trust, bytes, dicts).Some?
    ensures Blames(env, v, i, given, strict, trust, dicts, Verdict(given, trust, bytes, dicts).value)
  {
    hide Digest;
    assert env.content(i)[..|bytes|] == bytes;
  }

  /** A refusal is truthful: the literal is unreadable, nothing could be opened, or the file is to blame as it says. */
  lemma RefusalIsTrue(env: Env, t: nat, end: nat, file: string, literal: Option<string>, strict: bool, trust: bool, dicts: seq<Dict>, why: Refusal)
    requires LineFault(env, t, end, Some(file), literal, strict, trust, dicts, why)
    ensures why == BadLiteral ==> literal.Some? && Literal(literal.value) == None
    ensures why == NotOpened ==> (if strict then Walk(env, t, file).leaf else env.Resolved(t, file)) == None
    ensures why !in {BadLiteral, NotOpened, NoMemory} ==>
              exists i | (if strict then Walk(env, t, file).leaf else env.Resolved(t, file)) == Some(i) ::
                Blames(env, t + (if strict then |Walk(env, t, file).calls| else 1), i,
                       if literal.Some? then Literal(literal.value) else None, strict, trust, dicts, why)
  {
    hide Digest, Walk, GoodFile, Blames, Literal;
    if why !in {BadLiteral, NotOpened, NoMemory} {
      var i, v, given := OpenedAs(env, t, file, strict).value, CheckTime(env, t, file, strict), Given(literal);
      if FileFault(env, v, end, i, strict, why) {
        FaultBlames(env, v, end, i, given, strict, trust, dicts, why);
      } else {
        var bytes :| GoodFile(env, v, i, strict, bytes) && Verdict(given, trust, bytes, dicts) == Some(why);
        VerdictBlames(env, v, i, given, strict, trust, dicts, bytes);
      }
    }
  }

  /** The fields of the configuration. */
  datatype State = State(
    strict: Option<bool>,
    trust: Option<bool>,
    hashed: nat,
    loadedBeforeStrict: Option<string>,
    verifiedBeforeTrust: Option<string>,
    lists: map<nat, seq<Dict>>)
  {
    function List(location: nat): seq<Dict> {
      if location in lists then lists[location] else []
    }

    /** The flags say what the directives say. */
    ghost predicate Flags(done: seq<Directive>) {
      && Once(done)
      && (strict.None? <==> forall d | d in done :: !d.StrictPath?)
      && (trust.None? <==> forall d | d in done :: !d.TrustHashes?)
      && (strict == Some(true) <==> StrictPath(true) in done)
      && (trust == Some(true) <==> TrustHashes(true) in done)
    }

    /** Every list is that of the lines of its location, no hash twice. */
    ghost predicate Lists(lines: seq<Line>) {
      forall location: nat :: List(location) == DictsOf(lines, location) && DistinctHashes(List(location))
    }

    /** The directives `done` have loaded `lines` and left this state. */
    ghost predicate Records(env: Env, fullName: string -> Option<string>, done: seq<Directive>, lines: seq<Line>) {
      && Flags(done)
      && Follows(done, lines, fullName)
      && (forall l | l in lines :: l.Sound(env))
      && hashed == CountHashed(lines)
      && loadedBeforeStrict == FirstUnchecked(lines)
      && verifiedBeforeTrust == FirstVerified(lines)
      && Lists(lines)
    }

    /** The state after one more line is loaded. */
    function With(line: Line): State {
      State(
        strict, trust,
        hashed + if line.Hashed() then 1 else 0,
        if loadedBeforeStrict.Some? || line.strict then loadedBeforeStrict else Some(line.dict.file),
        if verifiedBeforeTrust.Some? || line.trust || line.literal.None? then verifiedBeforeTrust else Some(line.dict.file),
        lists[line.location := List(line.location) + [line.dict]])
    }
  }

  lemma FlagsKept(s: State, done: seq<Directive>, d: Directive)
    requires s.Flags(done) && d.DictFile?
    ensures forall line :: s.With(line).Flags(done + [d])
  {}

  lemma ListsGrow(s: State, lines: seq<Line>, line: Line)
    requires s.Lists(lines) && !Listed(s.List(line.location), line.dict.hash)
    ensures s.With(line).Lists(lines + [line])
  {
    assert Init(lines + [line]) == lines && Last(lines + [line]) == line;
    var before, all := s.List(line.location), s.List(line.location) + [line.dict];
    assert DistinctHashes(all) by {
      forall i, j | 0 <= i < j < |all| ensures all[i].hash != all[j].hash {
        if j == |before| { assert before[i] in before; }
      }
    }
    forall location: nat
      ensures s.With(line).List(location) == DictsOf(lines + [line], location) && DistinctHashes(s.With(line).List(location))
    {
      assert s.List(location) == DictsOf(lines, location) && DistinctHashes(s.List(location));
    }
  }

  lemma LineRecorded(s: State, env: Env, fullName: string -> Option<string>, done: seq<Directive>, lines: seq<Line>, d: Directive, line: Line)
    requires s.Records(env, fullName, done, lines) && line.Sound(env)
    requires !Listed(s.List(line.location), line.dict.hash)
    requires d.DictFile? && d.location == line.location && fullName(d.path) == Some(line.dict.file)
    requires line.literal == Given(d.literal) && line.literal.Some? == d.literal.Some?
    requires line.strict == (s.strict == Some(true)) && line.trust == (s.trust == Some(true))
    ensures s.With(line).Records(env, fullName, done + [d], lines + [line])
  {
    hide Line.Sound, State.Lists, State.Flags, Listed, Follows, CountHashed, FirstUnchecked, FirstVerified;
    FlagsKept(s, done, d);
    ListsGrow(s, lines, line);
    FlagsSay(s, done);
    FollowsSnoc(fullName, done, lines, d, line);
    CountsSnoc(lines, line);
    assert forall l | l in lines + [line] :: l in lines || l == line;
  }

  lemma FollowsSnoc(fullName: string -> Option<string>, done: seq<Directive>, lines: seq<Line>, d: Directive, line: Line)
    requires Follows(done, lines, fullName)
    requires d.DictFile? && d.location == line.location && fullName(d.path) == Some(line.dict.file)
    requires line.literal == Given(d.literal) && line.literal.Some? == d.literal.Some?
    requires line.strict == (StrictPath(true) in done) && line.trust == (TrustHashes(true) in done)
    ensures Follows(done + [d], lines + [line], fullName)
  {
    assert Init(lines + [line]) == lines && Last(lines + [line]) == line;
    assert Init(done + [d]) == done && Last(done + [d]) == d;
  }

  lemma CountsSnoc(lines: seq<Line>, line: Line)
    ensures CountHashed(lines + [line]) == CountHashed(lines) + if line.Hashed() then 1 else 0
    ensures FirstUnchecked(lines + [line]) ==
            if FirstUnchecked(lines).Some? || line.strict then FirstUnchecked(lines) else Some(line.dict.file)
    ensures FirstVerified(lines + [line]) ==
            if FirstVerified(lines).Some? || line.trust || line.literal.None? then FirstVerified(lines) else Some(line.dict.file)
  {
    assert Init(lines + [line]) == lines && Last(lines + [line]) == line;
  }

  lemma FlagsSay(s: State, done: seq<Directive>)
    requires s.Flags(done)
    ensures (s.strict == Some(true) <==> StrictPath(true) in done) && (s.trust == Some(true) <==> TrustHashes(true) in done)
  {}

  class Config {
    const os: Process
    const fullName: string -> Option<string>   // relative names are completed; None is out of memory

    var strict: Option<bool>
    var trust: Option<bool>
    var hashed: nat
    var loadedBeforeStrict: Option<string>
    var verifiedBeforeTrust: Option<string>
    var lists: map<nat, seq<Dict>>

    ghost var done: seq<Directive>
    ghost var lines: seq<Line>

    ghost function Snap(): State
      reads this
    {
      State(strict, trust, hashed, loadedBeforeStrict, verifiedBeforeTrust, lists)
    }

    ghost predicate Valid()
      reads this, os
    {
      os.env.Valid() && Snap().Records(os.env, fullName, done, lines)
    }

    constructor (os: Process, fullName: string -> Option<string>)
      requires os.env.Valid()
      ensures this.os == os && this.fullName == fullName && Valid() && done == [] && lines == []
    {
      this.os, this.fullName := os, fullName;
      strict, trust, hashed, loadedBeforeStrict, verifiedBeforeTrust, lists := None, None, 0, None, None, map[];
      done, lines := [], [];
    }

    method OpenDict(path: string) returns (fd: int)
      modifies os
      ensures old(os.log) <= os.log && (fd >= 0 ==> |os.log| == CheckTime(os.env, |old(os.log)|, path, strict == Some(true)))
      ensures Gains(old(os.files), os.files, fd, OpenedAs(os.env, |old(os.log)|, path, strict == Some(true)))
    {
      if strict == Some(true) {
        fd := OpenDictStrict(os, path);
      } else {
        fd := os.OpenWhole(path);
      }
    }

    /** Checks the file open as `fd`, reads it and closes it. */
    method LoadFile(fd: int) returns (r: Result<seq<byte>>)
      requires os.env.Valid() && fd in os.files && os.files[fd].offset == 0
      modifies os
      ensures old(os.log) < os.log && os.files == old(os.files) - {fd}
      ensures var v, i, policy := |old(os.log)|, old(os.files)[fd].inode, strict == Some(true);
              match r
              case Loaded(bytes) => GoodFile(os.env, v, i, policy, bytes)
              case Refused(why) => FileFault(os.env, v, |os.log|, i, policy, why) && why != BadLiteral
    {
      var info := os.StatOf(fd);
      if info.None? {
        var _ := os.CloseFile(fd);
        return Refused(NotStatted);
      }
      var st := info.value;
      if os.env.kind(os.files[fd].inode) != Regular {
        var _ := os.CloseFile(fd);
        return Refused(NotRegular);
      }
      if strict == Some(true) && st.uid != os.env.euid && st.uid != 0 {
        var _ := os.CloseFile(fd);
        return Refused(BadOwner);
      }
      if strict == Some(true) && st.mode & WRITABLE_BY_OTHERS != 0 {
        var _ := os.CloseFile(fd);
        return Refused(BadMode);
      }
      if st.size > MAX_DICT_SIZE {
        var _ := os.CloseFile(fd);
        return Refused(TooLarge);
      }
      if st.size == 0 {
        var _ := os.CloseFile(fd);
        return Refused(Empty);
      }
      if * {
        var _ := os.CloseFile(fd);
        return Refused(NoMemory);
      }
      r := ReadWhole(fd, st.size);
    }

    /** Reads `size` bytes and closes the file. */
    method ReadWhole(fd: int, size: nat) returns (r: Result<seq<byte>>)
      requires os.env.Valid() && fd in os.files && os.files[fd].offset == 0
      modifies os
      ensures old(os.log) < os.log && os.files == old(os.files) - {fd}
      ensures match r
              case Loaded(bytes) => bytes <= os.env.content(old(os.files)[fd].inode) && |bytes| == size
              case Refused(ReadFailed) => exists t: nat | |old(os.log)| <= t < |os.log| :: os.env.answer(t) == Broken
              case Refused(Incomplete) => |os.env.content(old(os.files)[fd].inode)| < size
              case Refused(CloseFailed) => exists t: nat | |old(os.log)| <= t < |os.log| :: os.env.fails(t)
              case Refused(_) => false
    {
      var buf := new byte[size];
      var n := ReadDictFile(os, fd, buf, size);
      ghost var t := |os.log|;
      var closed := os.CloseFile(fd);
      if n < 0 {
        return Refused(ReadFailed);
      }
      if n != size {
        return Refused(Incomplete);
      }
      if !closed {
        assert os.env.fails(t);
        return Refused(CloseFailed);
      }
      r := Loaded(buf[..]);
    }

    /** Adds a dictionary to its location under the key its line gives it. */
    method Enroll(location: nat, file: string, bytes: seq<byte>, given: Option<seq<byte>>) returns (refusal: Option<Refusal>)
      requires location in lists
      modifies this`lists, this`hashed
      ensures var trusting := trust == Some(true);
              && refusal == Verdict(given, trusting, bytes, old(lists)[location])
              && (refusal.None? ==>
                    && lists == old(lists)[location := old(lists)[location] + [Dict(file, bytes, KeyOf(given, trusting, bytes))]]
                    && hashed == old(hashed) + if trusting && given.Some? then 0 else 1)
    {
      hide Digest;
      var trusting := trust == Some(true);
      var before := lists[location];
      var dict := Dict(file, bytes, []);
      lists := lists[location := before + [dict]];
      if given.Some? && trusting {
        dict := dict.(hash := given.value);
      } else {
        var hash := Hash(bytes);
        dict := dict.(hash := hash);
        hashed := hashed + 1;
        if given.Some? && given.value != dict.hash {
          return Some(Mismatch);
        }
      }
      lists := lists[location := before + [dict]];
      for i := 0 to |before|
        invariant forall k | 0 <= k < i :: before[k].hash != dict.hash
      {
        if before[i].hash == dict.hash {
          return Some(Duplicate);
        }
      }
      refusal := None;
    }

    /** Opens, checks, reads, hashes and lists the dictionary of a line. */
    method LoadLine(location: nat, file: string, given: Option<seq<byte>>) returns (refusal: Option<Refusal>, ghost line: Line)
      requires os.env.Valid() && location in lists
      modifies this`hashed, this`lists, os
      ensures os.files == old(os.files) && old(os.log) <= os.log
      ensures refusal.None? ==>
                && line.Sound(os.env) && line.location == location && line.dict.file == file && line.literal == given
                && line.strict == (strict == Some(true)) && line.trust == (trust == Some(true)) && line.openedAt == |old(os.log)|
                && lists == old(lists)[location := old(lists)[location] + [line.dict]]
                && hashed == old(hashed) + (if line.Hashed() then 1 else 0)
                && !Listed(old(lists)[location], line.dict.hash)
      ensures refusal.Some? ==> OpenedFault(os.env, |old(os.log)|, |os.log|, file, given,
                                            strict == Some(true), trust == Some(true), old(lists)[location], refusal.value)
      ensures refusal != Some(BadLiteral)
    {
      hide Digest, GoodFile, FileFault, Walk;
      ghost var t, files, policy := |os.log|, os.files, strict == Some(true);
      line := *;
      var fd := OpenDict(file);
      if fd < 0 {
        return Some(NotOpened), line;
      }
      ghost var i, v := os.files[fd].inode, |os.log|;
      Released(files, fd, os.files[fd]);
      var loaded := LoadFile(fd);
      if loaded.Refused? {
        return Some(loaded.why), line;
      }
      var bytes := loaded.value;
      refusal := Enroll(location, file, bytes, given);
      line := Line(location, Dict(file, bytes, KeyOf(given, trust == Some(true), bytes)), given, policy, trust == Some(true), i, t);
    }

    /** Creates the list of the location and records a load under a policy that a later line may change. */
    method Note(location: nat, file: string, given: Option<seq<byte>>) returns (ok: bool)
      modifies this`loadedBeforeStrict, this`verifiedBeforeTrust, this`lists
      ensures ok ==> location in lists && lists == old(lists)[location := old(Snap().List(location))]
      ensures ok ==> loadedBeforeStrict == if strict == Some(true) || old(loadedBeforeStrict).Some? then old(loadedBeforeStrict) else Some(file)
      ensures ok ==> verifiedBeforeTrust == if given.None? || trust == Some(true) || old(verifiedBeforeTrust).Some?
                       then old(verifiedBeforeTrust) else Some(file)
    {
      if location !in lists {
        if * {
          return false;
        }
        lists := lists[location := []];
      }
      if strict != Some(true) && loadedBeforeStrict.None? {
        loadedBeforeStrict := Some(file);
      }
      if given.Some? && trust != Some(true) && verifiedBeforeTrust.None? {
        verifiedBeforeTrust := Some(file);
      }
      ok := true;
    }

    /** One dictionary line. */
    method DcbDictFile(location: nat, path: string, literal: Option<string>) returns (refusal: Option<Refusal>)
      requires Valid()
      modifies this`loadedBeforeStrict, this`verifiedBeforeTrust, this`hashed, this`lists, this`done, this`lines, os
      ensures os.files == old(os.files) && old(os.log) <= os.log
      ensures refusal.None? ==>
                && Valid() && done == old(done) + [DictFile(location, path, literal)]
                && lines == old(lines) + [Last(lines)] && Last(lines).openedAt == |old(os.log)|
      ensures refusal.Some? ==> done == old(done) && LineFault(os.env, |old(os.log)|, |os.log|, fullName(path), literal,
                                          strict == Some(true), trust == Some(true), old(Snap().List(location)), refusal.value)
      ensures refusal == Some(BadLiteral) <==> fullName(path).Some? && literal.Some? && Literal(literal.value).None?
      ensures refusal == Some(BadLiteral) ==> os.log == old(os.log)
    {
      hide State.Records, Line.Sound, Listed, OpenedFault, Literal;
      ghost var before := Snap();
      var full := fullName(path);
      if full.None? {
        return Some(NoMemory);
      }
      var given: Option<seq<byte>> := None;
      if literal.Some? {
        given := ParseLiteral(literal.value);
        if given.None? {
          return Some(BadLiteral);
        }
      }
      var ok := Note(location, full.value, given);
      if !ok {
        return Some(NoMemory);
      }
      ghost var line;
      refusal, line := LoadLine(location, full.value, given);
      if refusal.None? {
        assert Snap() == before.With(line);
        LineRecorded(before, os.env, fullName, done, lines, DictFile(location, path, literal), line);
        done := done + [DictFile(location, path, literal)];
        lines := lines + [line];
      }
    }

    /** A flag directive; the second one of a kind is a duplicate. */
    method SetFlag(d: Directive) returns (ok: bool)
      requires Valid() && !d.DictFile?
      modifies this`strict, this`trust, this`done
      ensures ok <==> !(exists e | e in old(done) :: if d.StrictPath? then e.StrictPath? else e.TrustHashes?)
      ensures if ok then Valid() && done == old(done) + [d] else done == old(done)
    {
      FlagsFound(Snap(), done);
      ghost var before := Snap();
      if d.StrictPath? {
        if strict.Some? {
          return false;
        }
        strict := Some(d.on);
      } else {
        if trust.Some? {
          return false;
        }
        trust := Some(d.on);
      }
      FlagRecorded(before, os.env, fullName, done, lines, d);
      done := done + [d];
      ok := true;
    }

    /** The end of the configuration: unset flags take their defaults, orders that defeat a policy are refused. */
    method InitMainConf() returns (ok: bool)
      requires Valid()
      modifies this`strict, this`trust
      ensures ok <==> !StrictLate(done) && !TrustLate(done)
      ensures ok ==> strict.Some? && (strict.value <==> StrictPath(true) in done)
      ensures ok ==> trust.Some? && (trust.value <==> TrustHashes(true) in done)
    {
      hide Line.Sound, State.Lists, StrictLate, TrustLate, Follows;
      UncheckedLate(done, lines, fullName);
      VerifiedLate(done, lines, fullName);
      LateNeedsOn(done);
      FlagsSay(Snap(), done);
      if strict.None? {
        strict := Some(false);
      }
      if strict == Some(true) && loadedBeforeStrict.Some? {
        return false;
      }
      if trust.None? {
        trust := Some(false);
      }
      if trust == Some(true) && verifiedBeforeTrust.Some? {
        return false;
      }
      ok := true;
    }
  }

  lemma FlagRecorded(s: State, env: Env, fullName: string -> Option<string>, done: seq<Directive>, lines: seq<Line>, d: Directive)
    requires s.Records(env, fullName, done, lines) && !d.DictFile?
    requires if d.StrictPath? then s.strict.None? else s.trust.None?
    ensures (if d.StrictPath? then s.(strict := Some(d.on)) else s.(trust := Some(d.on))).Records(env, fullName, done + [d], lines)
  {
    hide Line.Sound, State.Lists, State.Flags;
    assert Init(done + [d]) == done && Last(done + [d]) == d;
    FlagSet(s, done, d);
    var t := if d.StrictPath? then s.(strict := Some(d.on)) else s.(trust := Some(d.on));
    assert t.Lists(lines) by { ListsSame(s, t, lines); }
  }

  lemma ListsSame(s: State, t: State, lines: seq<Line>)
    requires s.Lists(lines) && s.lists == t.lists
    ensures t.Lists(lines)
  {
    hide DistinctHashes, DictsOf;
    forall location: nat ensures t.List(location) == DictsOf(lines, location) && DistinctHashes(t.List(location)) {
      assert s.List(location) == t.List(location);
    }
  }

  lemma FlagSet(s: State, done: seq<Directive>, d: Directive)
    requires s.Flags(done) && !d.DictFile?
    requires if d.StrictPath? then s.strict.None? else s.trust.None?
    ensures (if d.StrictPath? then s.(strict := Some(d.on)) else s.(trust := Some(d.on))).Flags(done + [d])
  {
    var all := done + [d];
    assert forall e | e in all :: e in done || e == d;
    assert d in all && forall e | e in done :: e in all;
    OnceMore(done, d);
  }

  lemma OnceMore(done: seq<Directive>, d: Directive)
    requires Once(done) && !d.DictFile?
    requires forall e | e in done :: if d.StrictPath? then !e.StrictPath? else !e.TrustHashes?
    ensures Once(done + [d])
  {
    assert forall i | 0 <= i < |done| :: done[i] in done;
  }

  lemma FlagsFound(s: State, done: seq<Directive>)
    requires s.Flags(done)
    ensures s.strict.Some? <==> exists d | d in done :: d.StrictPath?
    ensures s.trust.Some? <==> exists d | d in done :: d.TrustHashes?
  {}

  lemma LateNeedsOn(ds: seq<Directive>)
    ensures StrictLate(ds) ==> StrictPath(true) in ds
    ensures TrustLate(ds) ==> TrustHashes(true) in ds
  {}

  datatype Outcome = BadDirective(index: nat) | BadOrder | Accepted

  /** A whole configuration, read in order. */
  method Parse(os: Process, fullName: string -> Option<string>, ds: seq<Directive>) returns (c: Config, outcome: Outcome)
    requires os.env.Valid()
    modifies os
    ensures fresh(c) && c.os == os && os.files == old(os.files)
    ensures outcome.BadDirective? <==> |c.done| < |ds|
    ensures c.done <= ds && (outcome.BadDirective? ==> outcome.index == |c.done|)
    ensures outcome.BadOrder? ==> StrictLate(ds) || TrustLate(ds)
    ensures outcome.Accepted? ==>
              && !StrictLate(ds) && !TrustLate(ds) && Follows(ds, c.lines, fullName)
              && (forall l | l in c.lines :: Reliable(os.env, l))
              && (c.strict == Some(true) <==> StrictPath(true) in ds) && (c.trust == Some(true) <==> TrustHashes(true) in ds)
              && (forall l | l in c.lines :: l.Sound(os.env))
              && (forall location: nat :: c.Snap().List(location) == DictsOf(c.lines, location) && DistinctHashes(c.Snap().List(location)))
              && (c.strict == Some(true) ==>
                    forall l | l in c.lines :: Walk(os.env, l.openedAt, l.dict.file).leaf == Some(l.inode) && os.env.Vetted(l.CheckedAt(os.env), l.inode))
              && c.hashed == (if c.trust == Some(true) then CountBare(c.lines) else |c.lines|)
              && (c.trust != Some(true) ==> forall l | l in c.lines :: l.dict.hash == Digest(l.dict.bytes))
  {
    hide Line.Sound, StrictLate, TrustLate, Follows, Walk, Digest, Env.Vetted, Reliable;
    c := new Config(os, fullName);
    for i := 0 to |ds|
      invariant fresh(c) && c.os == os && c.fullName == fullName && c.Valid() && c.done == ds[..i] && os.files == old(os.files)
    {
      var ok;
      match ds[i] {
        case DictFile(location, path, literal) =>
          var refusal := c.DcbDictFile(location, path, literal);
          ok := refusal.None?;
        case _ =>
          ok := c.SetFlag(ds[i]);
      }
      if !ok {
        return c, BadDirective(i);
      }
      assert ds[..i + 1] == ds[..i] + [ds[i]];
    }
    assert ds[..|ds|] == ds;
    var ok := c.InitMainConf();
    if !ok {
      return c, BadOrder;
    }
    AcceptedMeans(os.env, ds, c.lines, fullName);
    outcome := Accepted;
  }
}
