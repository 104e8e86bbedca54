/** Chains of input buffers. */
module Links {
  import opened Octets

  /** A chain link: the bytes of its buffer not yet consumed, and the buffer's marks. */
  datatype Link = Link(data: seq<byte>, lastBuf: bool, flush: bool)

  function Bytes(links: seq<Link>): seq<byte> {
    if links == [] then [] else links[0].data + Bytes(links[1..])
  }

  predicate HasLast(links: seq<Link>) {
    exists i | 0 <= i < |links| :: links[i].lastBuf
  }

  /** The response body a chain carries: everything up to and including its first last buffer. */
  function Payload(links: seq<Link>): seq<byte> {
    if links == [] then []
    else links[0].data + if links[0].lastBuf then [] else Payload(links[1..])
  }

  function Biggest(links: seq<Link>): nat {
    if links == [] then 0
    else if |links[0].data| > Biggest(links[1..]) then |links[0].data| else Biggest(links[1..])
  }

  /** Bytes and links left: what the main loop uses up. */
  function Weight(links: seq<Link>): nat {
    if links == [] then 0 else 1 + |links[0].data| + Weight(links[1..])
  }

  lemma {:induction false} BytesAppend(a: seq<Link>, b: seq<Link>)
    ensures Bytes(a + b) == Bytes(a) + Bytes(b)
    decreases |a|
  {
    if a == [] {
      assert a + b == b;
    } else {
      assert (a + b)[1..] == a[1..] + b;
      BytesAppend(a[1..], b);
    }
  }

  lemma {:induction false} PayloadAppend(a: seq<Link>, b: seq<Link>)
    ensures Payload(a + b) == if HasLast(a) then Payload(a) else Bytes(a) + Payload(b)
    ensures HasLast(a + b) <==> HasLast(a) || HasLast(b)
    ensures !HasLast(a) ==> Payload(a) == Bytes(a)
    decreases |a|
  {
    if a == [] {
      assert a + b == b;
    } else {
      assert (a + b)[1..] == a[1..] + b;
      PayloadAppend(a[1..], b);
      HasLastSplit(a);
      HasLastSplit(a + b);
    }
  }

  lemma HasLastSplit(a: seq<Link>)
    requires a != []
    ensures HasLast(a) <==> a[0].lastBuf || HasLast(a[1..])
  {
    if HasLast(a) && !a[0].lastBuf {
      var i :| 0 <= i < |a| && a[i].lastBuf;
      assert a[1..][i - 1].lastBuf;
    }
    if HasLast(a[1..]) {
      var i :| 0 <= i < |a[1..]| && a[1..][i].lastBuf;
      assert a[i + 1].lastBuf;
    }
  }

  lemma {:induction false} BiggestAppend(a: seq<Link>, b: seq<Link>)
    ensures Biggest(a + b) >= Biggest(a) && Biggest(a + b) >= Biggest(b)
    decreases |a|
  {
    if a == [] {
      assert a + b == b;
    } else {
      assert (a + b)[1..] == a[1..] + b;
      BiggestAppend(a[1..], b);
    }
  }

  lemma {:induction false} BiggestBounds(a: seq<Link>)
    ensures forall l | l in a :: |l.data| <= Biggest(a)
    decreases |a|
  {
    if a != [] { BiggestBounds(a[1..]); }
  }

  /** Consuming the first `n` bytes of the first link. */
  function Consume(links: seq<Link>, n: nat): seq<Link>
    requires links != [] && n <= |links[0].data|
  {
    [links[0].(data := links[0].data[n..])] + links[1..]
  }

  lemma ConsumeFacts(links: seq<Link>, n: nat)
    requires links != [] && n <= |links[0].data|
    ensures var c := Consume(links, n);
            && Bytes(links) == links[0].data[..n] + Bytes(c)
            && Payload(links) == links[0].data[..n] + Payload(c)
            && Weight(c) == Weight(links) - n
  {
    var c := Consume(links, n);
    assert c[0] == links[0].(data := links[0].data[n..]) && c[1..] == links[1..];
    var rest := Bytes(links[1..]);
    assert links[0].data + rest == links[0].data[..n] + (links[0].data[n..] + rest);
    var tail := if links[0].lastBuf then [] else Payload(links[1..]);
    assert links[0].data + tail == links[0].data[..n] + (links[0].data[n..] + tail);
  }

  lemma ConsumeMarks(links: seq<Link>, n: nat, bound: nat)
    requires links != [] && n <= |links[0].data|
    requires forall l | l in links :: |l.data| <= bound
    ensures HasLast(Consume(links, n)) <==> HasLast(links)
    ensures forall l | l in Consume(links, n) :: |l.data| <= bound
  {
    var c := Consume(links, n);
    assert c[0].lastBuf == links[0].lastBuf && c[1..] == links[1..];
    HasLastSplit(links);
    HasLastSplit(c);
    forall l | l in c ensures |l.data| <= bound {
      if l != c[0] { assert l in c[1..]; }
    }
  }
}
