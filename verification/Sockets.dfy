/**
 The sending side of a connection: sendall of CEServer/main.cpp over a send that may take any part of what
 it is given, be interrupted, or fail.
 */
module Sockets {
  import opened Bytes

  /** One outcome of send: some bytes were taken, the peer has closed, EINTR, or another error. */
  datatype Reply = Took(n: nat) | Closed | Interrupted | Failed

  /** How many of room bytes a send takes that is to take n: at least one, and no more than there are. */
  function Clamp(n: nat, room: nat): (m: nat)
    requires room > 0
    ensures 0 < m <= room
  {
    if n == 0 then 1 else if n > room then room else n
  }

  /** The bytes of a buffer of size bytes that are out after the first j replies. */
  function Out(replies: seq<Reply>, j: nat, size: nat): (n: nat)
    requires j <= |replies|
    ensures n <= size
  {
    if j == 0 then 0
    else
      var n := Out(replies, j - 1, size);
      if replies[j - 1].Took? && n < size then n + Clamp(replies[j - 1].n, size - n) else n
  }

  /** sendall of size bytes uses exactly j replies, and returns r. */
  ghost predicate Ends(replies: seq<Reply>, j: nat, size: nat, r: int)
    requires j <= |replies|
  {
    && (forall i :: 0 <= i < j ==> Out(replies, i, size) < size)
    && (forall i :: 0 <= i < j - 1 ==> replies[i].Took? || replies[i].Interrupted?)
    && (if Out(replies, j, size) == size then r == size && (j > 0 ==> replies[j - 1].Took?)
        else if j > 0 && replies[j - 1].Closed? then r == 0
        else r == -1 && ((j > 0 && replies[j - 1].Failed?) || j == |replies|))
  }

  /** From one list of replies to the rest of it, sendall of size bytes returned r and got n bytes out. */
  ghost predicate Went(before: seq<Reply>, after: seq<Reply>, size: nat, r: int, n: nat) {
    exists j :: 0 <= j <= |before| && after == before[j..] && Ends(before, j, size, r) && n == Out(before, j, size)
  }

  /** How sendall ends is determined by the replies. */
  lemma EndIsUnique(replies: seq<Reply>, size: nat, j: nat, r: int, k: nat, q: int)
    requires j <= |replies| && k <= |replies| && Ends(replies, j, size, r) && Ends(replies, k, size, q)
    ensures j == k && r == q
  {
  }

  /** The connection never fails as long as there are replies. */
  ghost predicate Steady(replies: seq<Reply>) {
    forall i :: 0 <= i < |replies| ==> replies[i].Took? || replies[i].Interrupted?
  }

  /** How many sends take something. */
  function Takes(replies: seq<Reply>, j: nat): nat
    requires j <= |replies|
  {
    if j == 0 then 0 else Takes(replies, j - 1) + if replies[j - 1].Took? then 1 else 0
  }

  /** The connection is steady, and takes something at least n times. */
  ghost predicate Carries(replies: seq<Reply>, n: int) {
    Steady(replies) && Takes(replies, |replies|) >= n
  }

  /** Every take that is needed moves at least one byte. */
  lemma {:induction false} TakesMove(replies: seq<Reply>, j: nat, size: nat)
    requires j <= |replies| && forall i :: 0 <= i < j ==> Out(replies, i, size) < size
    ensures Takes(replies, j) <= Out(replies, j, size)
  {
    if j > 0 {
      TakesMove(replies, j - 1, size);
      assert Out(replies, j - 1, size) < size;
    }
  }

  lemma {:induction false} TakesSplit(replies: seq<Reply>, j: nat, k: nat)
    requires j <= k <= |replies|
    ensures Takes(replies, k) == Takes(replies, j) + Takes(replies[j..], k - j)
    decreases k
  {
    if j < k {
      TakesSplit(replies, j, k - 1);
      assert replies[j..][k - 1 - j] == replies[k - 1];
    }
  }

  /** On a steady connection sendall uses up no more takes than it moves bytes, and with enough of them it completes. */
  lemma SteadyGoes(before: seq<Reply>, after: seq<Reply>, size: nat, r: int, n: nat)
    requires Went(before, after, size, r, n) && Steady(before)
    ensures Steady(after) && Takes(before, |before|) <= Takes(after, |after|) + n
    ensures Takes(before, |before|) >= size ==> r == size
  {
    var j :| 0 <= j <= |before| && after == before[j..] && Ends(before, j, size, r) && n == Out(before, j, size);
    TakesMove(before, j, size);
    TakesSplit(before, j, |before|);
    SteadyStays(before, j);
    SteadyEnd(before, j, size, r);
  }

  lemma SteadyStays(before: seq<Reply>, j: nat)
    requires Steady(before) && j <= |before|
    ensures Steady(before[j..])
  {
  }

  /** On a steady connection sendall stops only when everything is out or no reply is left. */
  lemma SteadyEnd(before: seq<Reply>, j: nat, size: nat, r: int)
    requires Steady(before) && j <= |before| && Ends(before, j, size, r)
    ensures r == size || (j == |before| && Out(before, j, size) < size)
  {
    if j > 0 {
      assert before[j - 1].Took? || before[j - 1].Interrupted?;
    }
  }

  /** The loop of sendall has used j replies, total bytes are out, and nothing has ended it. */
  ghost predicate Sending(replies: seq<Reply>, j: nat, size: nat, total: nat) {
    && j <= |replies| && total == Out(replies, j, size)
    && (forall i :: 0 <= i < j ==> Out(replies, i, size) < size)
    && (forall i :: 0 <= i < j ==> replies[i].Took? || replies[i].Interrupted?)
    && (j > 0 && total == size ==> replies[j - 1].Took?)
  }

  lemma NextReply(replies: seq<Reply>, j: nat, size: nat, total: nat)
    requires Sending(replies, j, size, total) && total < size && j < |replies|
    ensures match replies[j]
            case Took(n) => Sending(replies, j + 1, size, total + Clamp(n, size - total))
            case Interrupted => Sending(replies, j + 1, size, total)
            case Closed => Ends(replies, j + 1, size, 0) && Out(replies, j + 1, size) == total
            case Failed => Ends(replies, j + 1, size, -1) && Out(replies, j + 1, size) == total
  {
  }

  lemma SendingEnds(replies: seq<Reply>, j: nat, size: nat, total: nat)
    requires Sending(replies, j, size, total)
    ensures total == size ==> Ends(replies, j, size, size)
    ensures total < size && j == |replies| ==> Ends(replies, j, size, -1)
  {
  }

  lemma PartGrows(before: seq<byte>, buf: seq<byte>, total: nat, n: nat)
    requires total + n <= |buf|
    ensures before + buf[..total] + buf[total..][..n] == before + buf[..total + n]
  {
  }

  class Socket {
    var sent: seq<byte>       // everything the peer has been given so far
    var replies: seq<Reply>   // how the next sends will turn out; after the last one the connection fails
    ghost var broken: bool    // some call of SendAll was cut short

    constructor (replies: seq<Reply>)
      ensures this.replies == replies && sent == [] && !broken
    {
      this.replies, sent, broken := replies, [], false;
    }

    /** send: at least one and at most all bytes, unless it fails. */
    method Send(buf: seq<byte>) returns (r: Reply)
      requires buf != []
      modifies this`sent, this`replies
      ensures old(replies) == [] ==> r == Failed && replies == [] && sent == old(sent)
      ensures old(replies) != [] ==>
        && replies == old(replies)[1..]
        && match old(replies)[0]
           case Took(n) => r == Took(Clamp(n, |buf|)) && sent == old(sent) + buf[..Clamp(n, |buf|)]
           case other => r == other && sent == old(sent)
    {
      if replies == [] {
        return Failed;
      }
      r := replies[0];
      replies := replies[1..];
      if r.Took? {
        var n := Clamp(r.n, |buf|);
        sent := sent + buf[..n];
        r := Took(n);
      }
    }

    /**
     sendall: the number of bytes sent, 0 if the peer has closed, -1 on an error. It goes on over partial sends and
     interruptions, until everything is out, the peer closes, or send fails.
     */
    method SendAll(buf: seq<byte>) returns (r: int)
      modifies this
      ensures exists n :: 0 <= n <= |buf| && sent == old(sent) + buf[..n]
                          && Went(old(replies), replies, |buf|, r, n)
      ensures broken <==> old(broken) || sent != old(sent) + buf
      ensures r == |buf| ==> sent == old(sent) + buf
      ensures buf != [] && r != |buf| ==> sent != old(sent) + buf
      ensures Steady(old(replies)) ==>
        Steady(replies) && Takes(old(replies), |old(replies)|) + |old(sent)| <= Takes(replies, |replies|) + |sent|
      ensures Carries(old(replies), |buf|) ==> r == |buf|
    {
      var total: nat := 0;
      ghost var before, script: seq<Reply>, j: nat := sent, replies, 0;
      assert buf[..0] == [];
      while total < |buf|
        invariant Sending(script, j, |buf|, total) == true  // compared, to keep it folded
        invariant total <= |buf| && j <= |script| && replies == script[j..]
        invariant sent == before + buf[..total] && broken == old(broken)
        decreases |replies|
      {
        SendingEnds(script, j, |buf|, total);
        if j < |script| {
          NextReply(script, j, |buf|, total);
        }
        var i := Send(buf[total..]);
        j := if j < |script| then j + 1 else j;
        if i == Closed || i == Failed {
          r := if i == Closed then 0 else -1;
          broken := true;
          Finish(script, j, buf, r, total, before, sent);
          return;
        }
        if i.Took? {
          PartGrows(before, buf, total, i.n);
          total := total + i.n;
        }
      }
      SendingEnds(script, j, |buf|, total);
      r := total;
      Finish(script, j, buf, r, total, before, sent);
    }
  }

  /** What the end of the loop means for the call. */
  lemma Finish(script: seq<Reply>, j: nat, buf: seq<byte>, r: int, total: nat, before: seq<byte>, sent: seq<byte>)
    requires j <= |script| && Ends(script, j, |buf|, r) && total == Out(script, j, |buf|)
    requires sent == before + buf[..total]
    ensures Went(script, script[j..], |buf|, r, total)
    ensures sent == before + buf <==> total == |buf|
    ensures Steady(script) ==>
      Steady(script[j..])
      && Takes(script, |script|) + |before| <= Takes(script[j..], |script[j..]|) + |sent|
      && (Takes(script, |script|) >= |buf| ==> r == |buf|)
  {
    if Steady(script) {
      SteadyGoes(script, script[j..], |buf|, r, total);
    }
    assert |sent| == |before| + total;
    assert total == |buf| ==> buf[..total] == buf;
  }
}
