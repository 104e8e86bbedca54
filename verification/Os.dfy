/**
 The operating system as the dictionary loader sees it: system calls numbered by the order in which
 they are made.  Any call may fail, directories and permissions may change between two calls, and
 a read may be cut short or interrupted.
 */
module Os {
  import opened Options
  import opened Octets

  type Inode = nat

  datatype Kind = Directory | Regular | Symlink | Special

  datatype Stat = Stat(uid: nat, mode: bv16, size: nat)

  /** What the environment does to a read: `Short(m)` transfers at most m + 1 bytes. */
  datatype ReadAnswer = Full | Short(most: nat) | Interrupted | Broken

  /** The flags of an open that bear on what may be opened: O_DIRECTORY and O_NOFOLLOW. */
  datatype Flags = Flags(directory: bool, nofollow: bool)

  datatype Call =
    | OpenRoot
    | OpenAt(base: Inode, name: string, flags: Flags)
    | OpenPath(path: string)
    | Fstat(target: Inode)
    | Read(target: Inode, start: nat, want: nat)
    | Close(target: Inode)

  const WRITABLE_BY_OTHERS: bv16 := 0x12   // S_IWGRP | S_IWOTH

  /** The world around the program; the first argument `t` of its functions is the number of the call. */
  datatype Env = Env(
    euid: nat,
    root: Inode,
    kind: Inode -> Kind,
    content: Inode -> seq<byte>,
    fails: nat -> bool,
    entry: (nat, Inode, string) -> Option<Inode>,   // directory entries
    target: (nat, Inode) -> Option<Inode>,          // where a symbolic link leads, to the end
    resolve: (nat, string) -> Option<Inode>,        // a path as the kernel resolves it, links followed
    stat: (nat, Inode) -> Stat,
    answer: nat -> ReadAnswer,
    calm: nat)                                      // no read is interrupted from this call on
  {
    ghost predicate Valid() {
      forall t: nat | t >= calm :: answer(t) != Interrupted
    }

    predicate OwnerOk(t: nat, i: Inode) {
      stat(t, i).uid == 0 || stat(t, i).uid == euid
    }

    predicate ModeOk(t: nat, i: Inode) {
      stat(t, i).mode & WRITABLE_BY_OTHERS == 0
    }

    /** fstat() works and shows an owner and a mode that leave nobody else in control. */
    predicate Vetted(t: nat, i: Inode) {
      !fails(t) && OwnerOk(t, i) && ModeOk(t, i)
    }

    /** openat(): a symbolic link is followed, unless O_NOFOLLOW refuses it. */
    function Lookup(t: nat, base: Inode, name: string, flags: Flags): Option<Inode> {
      if fails(t) || kind(base) != Directory || name == "" then None
      else match entry(t, base, name)
        case None => None
        case Some(i) =>
          if kind(i) != Symlink then Fit(i, flags)
          else if flags.nofollow then None
          else match target(t, i)
            case None => None
            case Some(j) => Fit(j, flags)
    }

    function Fit(i: Inode, flags: Flags): Option<Inode> {
      if flags.directory && kind(i) != Directory then None else Some(i)
    }

    function Resolved(t: nat, path: string): Option<Inode> {
      if fails(t) then None else resolve(t, path)
    }

    /** How many of `want` bytes a read that is answered moves when the file has `left` more. */
    function Moved(t: nat, left: nat, want: nat): nat {
      var n := if left < want then left else want;
      match answer(t)
      case Short(most) => if most + 1 < n then most + 1 else n
      case _ => n
    }
  }

  /** In mode bits: neither the group (020) nor anyone else (002) may write, and root or the process owns the file. */
  lemma VettedExactly(env: Env, t: nat, i: Inode)
    ensures env.Vetted(t, i) <==>
              && !env.fails(t) && env.stat(t, i).uid in {0, env.euid}
              && env.stat(t, i).mode & 0x10 == 0 && env.stat(t, i).mode & 0x02 == 0
  {
    TwoBits(env.stat(t, i).mode);
  }

  lemma TwoBits(m: bv16)
    ensures m & 0x12 == 0 <==> m & 0x10 == 0 && m & 0x02 == 0
  {}

  /** `b` with `bytes` put in from `start` on. */
  function Overwritten(b: seq<byte>, start: nat, bytes: seq<byte>): seq<byte>
    requires start + |bytes| <= |b|
  {
    b[..start] + bytes + b[start + |bytes|..]
  }

  datatype OpenFile = OpenFile(inode: Inode, offset: nat)

  type Files = map<int, OpenFile>

  /** `fd` is a new descriptor for `i`, or -1 and nothing was opened. */
  predicate Gains(before: Files, after: Files, fd: int, i: Option<Inode>) {
    match i
    case None => fd == -1 && after == before
    case Some(inode) => fd >= 0 && fd !in before && after == before[fd := OpenFile(inode, 0)]
  }

  class Process {
    const env: Env
    var log: seq<Call>
    var files: Files

    constructor (env: Env)
      ensures this.env == env && log == [] && files == map[]
    {
      this.env, log, files := env, [], map[];
    }

    /** The lowest free descriptor. */
    method Install(i: Option<Inode>) returns (fd: int)
      modifies this`files
      ensures Gains(old(files), files, fd, i)
    {
      if i.None? {
        return -1;
      }
      fd := 0;
      var above := files.Keys;
      while fd in above
        invariant fd >= 0 && forall k | k in files && k !in above :: k < fd
        decreases above
      {
        above := above - {fd};
        fd := fd + 1;
      }
      files := files[fd := OpenFile(i.value, 0)];
    }

    method OpenTheRoot() returns (fd: int)
      modifies this
      ensures log == old(log) + [OpenRoot]
      ensures Gains(old(files), files, fd, if env.fails(|old(log)|) then None else Some(env.root))
    {
      fd := Install(if env.fails(|log|) then None else Some(env.root));
      log := log + [OpenRoot];
    }

    method OpenEntry(base: int, name: string, flags: Flags) returns (fd: int)
      requires base in files
      modifies this
      ensures log == old(log) + [OpenAt(old(files)[base].inode, name, flags)]
      ensures Gains(old(files), files, fd, env.Lookup(|old(log)|, old(files)[base].inode, name, flags))
    {
      var dir := files[base].inode;
      fd := Install(env.Lookup(|log|, dir, name, flags));
      log := log + [OpenAt(dir, name, flags)];
    }

    method OpenWhole(path: string) returns (fd: int)
      modifies this
      ensures log == old(log) + [OpenPath(path)]
      ensures Gains(old(files), files, fd, env.Resolved(|old(log)|, path))
    {
      fd := Install(env.Resolved(|log|, path));
      log := log + [OpenPath(path)];
    }

    method StatOf(fd: int) returns (st: Option<Stat>)
      requires fd in files
      modifies this`log
      ensures log == old(log) + [Fstat(files[fd].inode)]
      ensures st == if env.fails(|old(log)|) then None else Some(env.stat(|old(log)|, files[fd].inode))
    {
      var i := files[fd].inode;
      st := if env.fails(|log|) then None else Some(env.stat(|log|, i));
      log := log + [Fstat(i)];
    }

    /** close(): the descriptor is gone even when an error is reported. */
    method CloseFile(fd: int) returns (ok: bool)
      requires fd in files
      modifies this
      ensures log == old(log) + [Close(old(files)[fd].inode)] && files == old(files) - {fd}
      ensures ok == !env.fails(|old(log)|)
    {
      ok := !env.fails(|log|);
      log := log + [Close(files[fd].inode)];
      files := files - {fd};
    }

    /** read() into `buf` from `start`: a count, or -1 with `eintr` telling an interrupt from an error. */
    method ReadInto(fd: int, buf: array<byte>, start: nat, want: nat) returns (n: int, eintr: bool)
      requires fd in files && start + want <= buf.Length
      modifies this, buf
      ensures log == old(log) + [Read(old(files)[fd].inode, start, want)]
      ensures eintr == env.answer(|old(log)|).Interrupted?
      ensures n == -1 <==> env.answer(|old(log)|) in {Interrupted, Broken}
      ensures n == -1 ==> files == old(files) && buf[..] == old(buf[..])
      ensures n != -1 ==>
                var f, data := old(files)[fd], env.content(old(files)[fd].inode);
                && n == env.Moved(|old(log)|, if f.offset <= |data| then |data| - f.offset else 0, want)
                && files == old(files)[fd := OpenFile(f.inode, f.offset + n)]
                && (n > 0 ==> f.offset + n <= |data|)
                && buf[..] == Overwritten(old(buf[..]), start, if n == 0 then [] else data[f.offset..f.offset + n])
    {
      var t, f := |log|, files[fd];
      var data := env.content(f.inode);
      log := log + [Read(f.inode, start, want)];
      eintr := env.answer(t).Interrupted?;
      if eintr || env.answer(t).Broken? {
        return -1, eintr;
      }
      n := env.Moved(t, if f.offset <= |data| then |data| - f.offset else 0, want);
      if n > 0 {
        var bytes := data[f.offset..f.offset + n];
        forall k | start <= k < start + n {
          buf[k] := bytes[k - start];
        }
      }
      files := files[fd := OpenFile(f.inode, f.offset + n)];
    }
  }
}
