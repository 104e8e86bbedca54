/**
 Reading a dictionary into its buffer whatever interrupts or short counts come in between.
 */
module ReadDict {
  import opened Octets
  import opened Os

  function Least(a: nat, b: nat): nat { if a <= b then a else b }

  /** Reads the first `size` bytes of a file just opened, or the whole file if it is shorter. */
  method ReadDictFile(os: Process, fd: int, buf: array<byte>, size: nat) returns (n: int)
    requires os.env.Valid() && fd in os.files && os.files[fd].offset == 0 && size <= buf.Length
    modifies os, buf
    ensures old(os.log) <= os.log
    ensures fd in os.files && os.files == old(os.files)[fd := os.files[fd]] && os.files[fd].inode == old(os.files[fd].inode)
    ensures n == -1 <==> exists t: nat | |old(os.log)| <= t < |os.log| :: os.env.answer(t) == Broken
    ensures n != -1 ==>
              var data := os.env.content(old(os.files[fd].inode));
              && n == Least(size, |data|) && os.files[fd].offset == n
              && buf[..] == data[..n] + old(buf[n..])
    ensures Resumes(os.log[|old(os.log)|..], size)
  {
    hide Resumes, Overwritten;
    NoneYet(size);
    var done := 0;
    ghost var i, before, first := os.files[fd].inode, os.log, buf[..];
    ghost var data, calls := os.env.content(i), [];
    while done < size
      invariant done <= size && done <= |data|
      invariant os.log == before + calls && fd in os.files && os.files == old(os.files)[fd := OpenFile(i, done)]
      invariant forall t: nat | |before| <= t < |os.log| :: os.env.answer(t) != Broken
      invariant buf[..] == data[..done] + first[done..]
      invariant Resumes(calls, size) && Reached(calls) <= done
      decreases size - done, if os.env.calm > |os.log| then os.env.calm - |os.log| else 0
    {
      ghost var t := |os.log|;
      ResumesMore(calls, size, Read(i, done, size - done));
      var got, eintr := os.ReadInto(fd, buf, done, size - done);
      calls := calls + [Read(i, done, size - done)];
      if got < 0 {
        if eintr {
          continue;
        }
        assert os.env.answer(t) == Broken && os.log[|before|..] == calls;
        return -1;
      }
      Spliced(data, first, done, got);
      if got == 0 {
        assert data[done..done] == [];
        break;
      }
      done := done + got;
    }
    assert os.log[|before|..] == calls && first[done..] == old(buf[done..]);
    n := done;
  }

  /** Every call is a read that goes on where the bytes so far end, and asks for all the rest. */
  ghost predicate Resumes(calls: seq<Call>, size: nat) {
    && (forall c | c in calls :: c.Read? && c.start < size && c.want == size - c.start)
    && (forall j, k | 0 <= j < k < |calls| :: calls[j].start <= calls[k].start)
  }

  /** Where the last read started. */
  function Reached(calls: seq<Call>): nat {
    if calls != [] && calls[|calls| - 1].Read? then calls[|calls| - 1].start else 0
  }

  lemma NoneYet(size: nat)
    ensures Resumes([], size)
  {}

  lemma ResumesMore(calls: seq<Call>, size: nat, c: Call)
    requires Resumes(calls, size) && c.Read? && Reached(calls) <= c.start < size && c.want == size - c.start
    ensures Resumes(calls + [c], size) && Reached(calls + [c]) == c.start
  {
    var all := calls + [c];
    forall j, k | 0 <= j < k < |all|
      ensures all[j].Read? && all[k].Read? && all[j].start <= all[k].start
    {
      assert all[j] in calls && (k == |calls| || all[k] in calls);
      assert calls[j].start <= calls[|calls| - 1].start;
    }
    forall d | d in all ensures d.Read? && d.start < size && d.want == size - d.start {
      assert d in calls || d == c;
    }
  }

  lemma Spliced(data: seq<byte>, first: seq<byte>, done: nat, got: nat)
    requires done + got <= |first| && done + got <= |data|
    ensures Overwritten(data[..done] + first[done..], done, data[done..done + got]) == data[..done + got] + first[done + got..]
  {}
}
