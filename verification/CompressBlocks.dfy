/**
 The compressed answer to CMD_READPROCESSMEMORY in CEServer/main.cpp: the output of deflate is collected in
 64 KB blocks behind a growing pointer table, and sent block by block.
 */
module CompressBlocks {
  import opened Options
  import opened Bytes
  import opened Sockets

  const BLOCK: nat := 65536
  const Z_OK := 0
  const Z_STREAM_END := 1
  const Z_STREAM_ERROR := -2

  datatype Flush = Z_NO_FLUSH | Z_FINISH

  /** One call of deflate: how much input it takes, what it puts out, and its result. */
  datatype Turn = Turn(takes: nat, bytes: seq<byte>, code: int)

  // The turns deflate will make decide everything. After the last one it reports an error and does nothing.

  function CodeOf(turns: seq<Turn>, i: nat): int {
    if i < |turns| then turns[i].code else Z_STREAM_ERROR
  }

  /** The z_stream between two calls: input left, room in the block, and all output so far. */
  datatype Stream = Stream(left: nat, room: nat, out: seq<byte>)

  /** What a call puts out: never more than there is room for. */
  function OutputOf(room: nat, t: Turn): (bytes: seq<byte>)
    ensures |bytes| <= room
  {
    if |t.bytes| > room then t.bytes[..room] else t.bytes
  }

  /** deflate never takes more input than there is; a full block is replaced after a call that returned Z_OK. */
  function Next(z: Stream, t: Turn): Stream {
    var room := z.room - |OutputOf(z.room, t)|;
    Stream(if t.takes > z.left then 0 else z.left - t.takes,
           if room == 0 && t.code == Z_OK then BLOCK else room,
           z.out + OutputOf(z.room, t))
  }

  /** The stream after n calls. */
  function After(turns: seq<Turn>, size: nat, n: nat): Stream {
    if n == 0 then Stream(size, BLOCK, [])
    else if n > |turns| then After(turns, size, n - 1)
    else Next(After(turns, size, n - 1), turns[n - 1])
  }

  function InputLeft(turns: seq<Turn>, size: nat, n: nat): nat {
    After(turns, size, n).left
  }

  function Output(turns: seq<Turn>, size: nat, n: nat): seq<byte> {
    After(turns, size, n).out
  }

  /** What the next call changes. */
  lemma AfterCall(turns: seq<Turn>, size: nat, n: nat)
    ensures var z, z' := After(turns, size, n), After(turns, size, n + 1);
      if n < |turns| then z' == Next(z, turns[n]) && CodeOf(turns, n) == turns[n].code
      else z' == z && CodeOf(turns, n) == Z_STREAM_ERROR
  {
  }

  /** As long as calls return Z_OK, the next one finds room. */
  lemma {:induction false} RoomAfterOk(turns: seq<Turn>, size: nat, n: nat)
    requires forall i :: 0 <= i < n ==> CodeOf(turns, i) == Z_OK
    ensures 0 < After(turns, size, n).room <= BLOCK
  {
    if n > 0 {
      RoomAfterOk(turns, size, n - 1);
      assert CodeOf(turns, n - 1) == Z_OK;
    }
  }

  /** The bytes of the first n turns. */
  function TurnBytes(turns: seq<Turn>, n: nat): seq<byte>
    requires n <= |turns|
  {
    if n == 0 then [] else TurnBytes(turns, n - 1) + turns[n - 1].bytes
  }

  /** Turns that keep to the room they are given lose nothing: the output is the concatenation of their bytes. */
  lemma {:induction false} NothingIsLost(turns: seq<Turn>, size: nat, n: nat)
    requires n <= |turns| && forall i :: 0 <= i < n ==> FitsAt(turns, size, i)
    ensures Output(turns, size, n) == TurnBytes(turns, n)
  {
    if n > 0 {
      NothingIsLost(turns, size, n - 1);
      assert FitsAt(turns, size, n - 1);
      AfterCall(turns, size, n - 1);
    }
  }

  ghost predicate FitsAt(turns: seq<Turn>, size: nat, i: nat)
    requires i < |turns|
  {
    |turns[i].bytes| <= After(turns, size, i).room
  }

  /**
   The calls that compress size bytes: m to feed the input, as long as there is some and deflate is fine with it,
   and then calls to finish the stream, until the first that does not return Z_OK; n in all.
   */
  ghost predicate Compresses(turns: seq<Turn>, size: nat, m: nat, n: nat) {
    && m < n
    && (forall i :: 0 <= i < m ==> InputLeft(turns, size, i) > 0)
    && (forall i :: 0 <= i < m - 1 ==> CodeOf(turns, i) == Z_OK)
    && (InputLeft(turns, size, m) == 0 || (m > 0 && CodeOf(turns, m - 1) != Z_OK))
    && (forall i :: m <= i < n - 1 ==> CodeOf(turns, i) == Z_OK)
    && CodeOf(turns, n - 1) != Z_OK
  }

  /** The turns determine the calls, and so the output. */
  lemma CallsAreUnique(turns: seq<Turn>, size: nat, m: nat, n: nat, k: nat, l: nat)
    requires Compresses(turns, size, m, n) && Compresses(turns, size, k, l)
    ensures m == k && n == l
  {
    FeedingIsUnique(turns, size, m, n, k, l);
    FeedingIsUnique(turns, size, k, l, m, n);
  }

  lemma FeedingIsUnique(turns: seq<Turn>, size: nat, m: nat, n: nat, k: nat, l: nat)
    requires Compresses(turns, size, m, n) && Compresses(turns, size, k, l)
    ensures m >= k
  {
    assert m < k ==> InputLeft(turns, size, m) > 0;
  }

  /** n calls have fed input, and the last one returned code. */
  ghost predicate Feeding(turns: seq<Turn>, size: nat, n: nat, code: int) {
    && (forall i :: 0 <= i < n ==> InputLeft(turns, size, i) > 0)
    && (forall i :: 0 <= i < n - 1 ==> CodeOf(turns, i) == Z_OK)
    && code == if n == 0 then Z_OK else CodeOf(turns, n - 1)
  }

  lemma FeedNext(turns: seq<Turn>, size: nat, n: nat)
    requires Feeding(turns, size, n, Z_OK) && InputLeft(turns, size, n) > 0
    ensures Feeding(turns, size, n + 1, CodeOf(turns, n))
  {
  }

  /** n calls have been made, those from number m on to finish the stream, and the last one returned code. */
  ghost predicate Finishing(turns: seq<Turn>, m: nat, n: nat, code: int) {
    && m <= n
    && (forall i :: m <= i < n - 1 ==> CodeOf(turns, i) == Z_OK)
    && code == if n == m then Z_OK else CodeOf(turns, n - 1)
  }

  lemma FinishNext(turns: seq<Turn>, m: nat, n: nat)
    requires Finishing(turns, m, n, Z_OK)
    ensures Finishing(turns, m, n + 1, CodeOf(turns, n))
  {
  }

  lemma FedAndFinished(turns: seq<Turn>, size: nat, m: nat, fed: int, n: nat, code: int)
    requires Feeding(turns, size, m, fed) && (InputLeft(turns, size, m) == 0 || fed != Z_OK)
    requires Finishing(turns, m, n, code) && code != Z_OK
    ensures Compresses(turns, size, m, n)
  {
  }

  /** The turns left after n calls. */
  function Rest(turns: seq<Turn>, n: nat): seq<Turn> {
    if n < |turns| then turns[n..] else []
  }

  lemma RestNext(turns: seq<Turn>, n: nat)
    ensures n >= |turns| ==> Rest(turns, n) == Rest(turns, n + 1) == []
    ensures n < |turns| ==>
      Rest(turns, n) != [] && Rest(turns, n)[0] == turns[n] && Rest(turns, n)[1..] == Rest(turns, n + 1)
  {
  }

  /** z_stream, with the turns deflate will make. */
  class Deflater {
    ghost const script: seq<Turn>      // all turns
    ghost const size: nat              // all input
    var turns: seq<Turn>               // the turns that are left
    var availIn: nat
    var availOut: nat
    ghost var produced: seq<byte>      // everything deflate has put out; its length is total_out
    var totalOut: nat
    ghost var asked: seq<Flush>        // what deflate was called with so far

    constructor (turns: seq<Turn>, availIn: nat)
      ensures script == turns && size == availIn && Started() && Valid()
    {
      script, size := turns, availIn;
      this.turns, this.availIn, availOut, produced, totalOut, asked := turns, availIn, BLOCK, [], 0, [];
    }

    ghost predicate Started()
      reads this
    {
      asked == [] && availIn == size && availOut == BLOCK
    }

    /** The fields are those of z, and the turns left are those after |asked| calls. */
    ghost predicate Holds(z: Stream)
      reads this
    {
      && turns == Rest(script, |asked|) && totalOut == |produced|
      && availIn == z.left && availOut == z.room && produced == z.out
    }

    ghost predicate Valid()
      reads this
    {
      Holds(After(script, size, |asked|))
    }

    /** One call; replacing a full block is up to the caller. */
    method Deflate(flush: Flush) returns (code: int, bytes: seq<byte>)
      requires Valid()
      modifies this
      ensures asked == old(asked) + [flush] && code == CodeOf(script, |old(asked)|)
      ensures |bytes| <= old(availOut) && availOut == old(availOut) - |bytes| && produced == old(produced) + bytes
      ensures var z := After(script, size, |asked|);
        Holds(z.(room := availOut)) && z.room == if availOut == 0 && code == Z_OK then BLOCK else availOut
    {
      ghost var n := |asked|;
      ghost var z := After(script, size, n);
      AfterCall(script, size, n);
      RestNext(script, n);
      asked := asked + [flush];
      if turns == [] {
        return Z_STREAM_ERROR, [];
      }
      var t := turns[0];
      turns := turns[1..];
      bytes := OutputOf(availOut, t);
      availIn := if t.takes > availIn then 0 else availIn - t.takes;
      availOut, produced, totalOut := availOut - |bytes|, produced + bytes, totalOut + |bytes|;
      code := t.code;
    }
  }

  /** The pointer table: allocated blocks, and slots not in use yet. */
  type Table = seq<Option<seq<byte>>>

  /** Blocks 0 up to n, each in full. */
  function Joined(table: Table, n: nat): seq<byte>
    requires n <= |table| && forall i :: 0 <= i < n ==> table[i].Some?
  {
    if n == 0 then [] else Joined(table, n - 1) + table[n - 1].value
  }

  /** Blocks up to number cur are allocated, and those before it are full with the output so far. */
  ghost predicate Packed(table: Table, cur: nat, availOut: nat, produced: seq<byte>) {
    && cur < |table| && availOut <= BLOCK
    && (forall i :: 0 <= i <= cur ==> table[i].Some? && |table[i].value| == BLOCK)
    && produced == Joined(table, cur) + table[cur].value[..BLOCK - availOut]
  }

  lemma {:induction false} JoinedIgnoresRest(table: Table, table': Table, n: nat)
    requires n <= |table| && n <= |table'|
    requires forall i :: 0 <= i < n ==> table[i].Some? && table'[i] == table[i]
    ensures Joined(table, n) == Joined(table', n)
  {
    if n > 0 {
      JoinedIgnoresRest(table, table', n - 1);
    }
  }

  /** Output of deflate goes to the end of the current block. */
  lemma PackedOutput(table: Table, cur: nat, availOut: nat, produced: seq<byte>, bytes: seq<byte>)
    requires Packed(table, cur, availOut, produced) && |bytes| <= availOut
    ensures var b := Splice(table[cur].value, BLOCK - availOut, bytes);
      Packed(table[cur := Some(b)], cur, availOut - |bytes|, produced + bytes)
  {
    var fill := BLOCK - availOut;
    var b := Splice(table[cur].value, fill, bytes);
    JoinedIgnoresRest(table, table[cur := Some(b)], cur);
    assert b[..fill + |bytes|] == table[cur].value[..fill] + bytes;
  }

  /** A new block may be started when the current one is full. */
  lemma PackedNewBlock(table: Table, table': Table, cur: nat, produced: seq<byte>, block: seq<byte>)
    requires Packed(table, cur, 0, produced) && |block| == BLOCK && cur + 1 < |table'|
    requires (forall i :: 0 <= i <= cur ==> table'[i] == table[i]) && table'[cur + 1] == Some(block)
    ensures Packed(table', cur + 1, BLOCK, produced)
  {
    JoinedIgnoresRest(table, table', cur + 1);
    assert table[cur].value[..BLOCK] == table[cur].value;
    assert block[..0] == [];
  }

  /** Allocate the next block, after doubling the table if it is full. */
  method NewBlock(table: Table, cur: nat, ghost produced: seq<byte>) returns (table': Table, cur': nat)
    requires Packed(table, cur, 0, produced)
    ensures Packed(table', cur', BLOCK, produced)
  {
    table', cur' := table, cur + 1;
    if cur' >= |table'| {
      table' := table' + seq(|table'|, _ => None);
    }
    table' := table'[cur' := Some(Zeros(BLOCK))];
    PackedNewBlock(table, table', cur, produced, Zeros(BLOCK));
  }

  /** One turn of either loop: call deflate, and start a new block when the current one is full. */
  method TurnOnce(z: Deflater, flush: Flush, table: Table, cur: nat) returns (code: int, table': Table, cur': nat)
    requires z.Valid() && Packed(table, cur, z.availOut, z.produced)
    modifies z
    ensures z.Valid() && Packed(table', cur', z.availOut, z.produced)
    ensures z.asked == old(z.asked) + [flush] && code == CodeOf(z.script, |old(z.asked)|)
  {
    ghost var before, room := z.produced, z.availOut;
    var fill := BLOCK - z.availOut;
    var bytes;
    code, bytes := z.Deflate(flush);
    PackedOutput(table, cur, room, before, bytes);
    table', cur' := table[cur := Some(Splice(table[cur].value, fill, bytes))], cur;
    if code == Z_OK && z.availOut == 0 {
      table', cur' := NewBlock(table', cur', z.produced);
      z.availOut := BLOCK;
    }
  }

  /** The first m calls fed the input, and the others finished the stream. */
  ghost predicate Phases(asked: seq<Flush>, m: nat) {
    && m <= |asked|
    && (forall i :: 0 <= i < m ==> asked[i] == Z_NO_FLUSH)
    && (forall i :: m <= i < |asked| ==> asked[i] == Z_FINISH)
  }

  lemma PhasesNext(asked: seq<Flush>, m: nat)
    requires Phases(asked, m)
    ensures Phases(asked + [Z_FINISH], m)
  {
  }

  /**
   Both loops: feed the input, then finish the stream. deflate is called exactly as often as that takes, and the
   blocks hold all its output, which the turns alone determine.
   */
  method Compress(z: Deflater, size: nat) returns (table: Table, cur: nat, ghost m: nat)
    requires z.Valid() && z.Started()
    modifies z
    ensures z.Valid() && Packed(table, cur, z.availOut, z.produced)
    ensures Phases(z.asked, m) && Compresses(z.script, z.size, m, |z.asked|)
  {
    var maxBlocks := 1 + size / BLOCK;
    table, cur := [Some(Zeros(BLOCK))] + seq(maxBlocks - 1, _ => None), 0;
    assert Zeros(BLOCK)[..0] == [];
    var code := Z_OK;
    while z.availIn > 0 && code == Z_OK
      invariant z.Valid() == true && Packed(table, cur, z.availOut, z.produced) == true
      invariant Phases(z.asked, |z.asked|)
      invariant Feeding(z.script, z.size, |z.asked|, code) == true  // compared, to keep it folded
      decreases if |z.script| > |z.asked| then |z.script| - |z.asked| else 0, code == Z_OK
    {
      FeedNext(z.script, z.size, |z.asked|);
      code, table, cur := TurnOnce(z, Z_NO_FLUSH, table, cur);
    }
    m := |z.asked|;
    ghost var last;
    table, cur, last := Finish(z, table, cur, m);
    FedAndFinished(z.script, z.size, m, code, |z.asked|, last);
  }

  /** The second loop. */
  method Finish(z: Deflater, table0: Table, cur0: nat, ghost m: nat)
    returns (table: Table, cur: nat, ghost code': int)
    requires z.Valid() && Packed(table0, cur0, z.availOut, z.produced)
    requires m == |z.asked| && Phases(z.asked, m)
    modifies z
    ensures z.Valid() && Packed(table, cur, z.availOut, z.produced)
    ensures Phases(z.asked, m) && Finishing(z.script, m, |z.asked|, code') && code' != Z_OK
  {
    table, cur := table0, cur0;
    var code := Z_OK;
    while code == Z_OK
      invariant z.Valid() == true && Packed(table, cur, z.availOut, z.produced) == true
      invariant Phases(z.asked, m) == true
      invariant Finishing(z.script, m, |z.asked|, code) == true
      decreases if |z.script| > |z.asked| then |z.script| - |z.asked| else 0, code == Z_OK
    {
      FinishNext(z.script, m, |z.asked|);
      PhasesNext(z.asked, m);
      code, table, cur := TurnOnce(z, Z_FINISH, table, cur);
    }
    code' := code;
  }

  /** The blocks on the wire: all of them in full, the last one up to its fill. */
  method SendBlocks(sock: Socket, table: Table, cur: nat, availOut: nat, ghost produced: seq<byte>)
    requires Packed(table, cur, availOut, produced)
    modifies sock
    ensures old(sock.broken) ==> sock.broken
    ensures !sock.broken ==> sock.sent == old(sock.sent) + produced
    ensures !old(sock.broken) && Carries(old(sock.replies), |produced|) ==> !sock.broken
  {
    ghost var before := sock.sent;
    ghost var fine := !sock.broken && Carries(sock.replies, |produced|);
    assert before + [] == before;
    for i := 0 to cur
      invariant old(sock.broken) ==> sock.broken
      invariant !sock.broken ==> sock.sent == before + Joined(table, i)
      invariant fine ==> !sock.broken && Carries(sock.replies, |produced| - |Joined(table, i)|)
    {
      JoinedGrows(table, i + 1, cur);
      var _ := sock.SendAll(table[i].value);
      assert before + Joined(table, i) + table[i].value == before + Joined(table, i + 1);
    }
    var _ := sock.SendAll(table[cur].value[..BLOCK - availOut]);
    assert before + Joined(table, cur) + table[cur].value[..BLOCK - availOut] == before + produced;
  }

  lemma {:induction false} JoinedGrows(table: Table, n: nat, cur: nat)
    requires n <= cur <= |table| && forall i :: 0 <= i < cur ==> table[i].Some?
    ensures |Joined(table, n)| <= |Joined(table, cur)|
    decreases cur
  {
    if n < cur {
      JoinedGrows(table, n, cur - 1);
    }
  }

  /** The answer: the two sizes, then the stream. */
  function Answer(uncompressed: nat, stream: seq<byte>): seq<byte> {
    Encode(uncompressed, 4) + Encode(|stream| % U32, 4) + stream
  }

  lemma AnswerParts(before: seq<byte>, uncompressed: nat, stream: seq<byte>)
    ensures before + Encode(uncompressed, 4) + Encode(|stream| % U32, 4) + stream
         == before + Answer(uncompressed, stream)
  {
  }

  /**
   The answer for any behaviour of deflate: the two sizes, and then exactly the output of the calls that feed
   the input and finish the stream. All of it arrives over a connection that does not fail and takes something
   as many times as there are bytes.
   */
  method SendCompressed(sock: Socket, uncompressed: seq<byte>, size: nat, z: Deflater)
    returns (ghost m: nat, ghost n: nat)
    requires z.size == |uncompressed| && z.Valid() && z.Started()
    modifies sock, z
    ensures Compresses(z.script, |uncompressed|, m, n) && n == |z.asked| && Phases(z.asked, m)
    ensures old(sock.broken) ==> sock.broken
    ensures !sock.broken ==> sock.sent == old(sock.sent) + Answer(|uncompressed|, Output(z.script, z.size, n))
    ensures !old(sock.broken) && Carries(old(sock.replies), 8 + |Output(z.script, z.size, n)|) ==> !sock.broken
  {
    ghost var before := sock.sent;
    var table, cur;
    table, cur, m := Compress(z, size);
    n := |z.asked|;
    var _ := sock.SendAll(Encode(|uncompressed|, 4));
    var _ := sock.SendAll(Encode(z.totalOut % U32, 4));
    SendBlocks(sock, table, cur, z.availOut, z.produced);
    AnswerParts(before, |uncompressed|, z.produced);
  }

  /** The receiver: the uncompressed size, the announced number of bytes, and what follows. */
  function Receive(bs: seq<byte>): Option<(nat, seq<byte>, seq<byte>)> {
    if |bs| < 8 || |bs| < 8 + Decode(bs[4..8]) then None
    else Some((Decode(bs[0..4]), bs[8..8 + Decode(bs[4..8])], bs[8 + Decode(bs[4..8])..]))
  }

  lemma ReceiveParts(a: seq<byte>, b: seq<byte>, c: seq<byte>, rest: seq<byte>)
    requires |a| == |b| == 4 && Decode(b) == |c|
    ensures Receive(a + b + c + rest) == Some((Decode(a), c, rest))
  {
    var bs := a + b + c + rest;
    assert bs[0..4] == a && bs[4..8] == b && bs[8..8 + |c|] == c && bs[8 + |c|..] == rest;
  }

  /** A stream shorter than 4 GB is received as it was produced. */
  lemma ReceiverGetsStream(uncompressed: nat, produced: seq<byte>, rest: seq<byte>)
    requires uncompressed < U32 && |produced| < U32
    ensures Receive(Answer(uncompressed, produced) + rest) == Some((uncompressed, produced, rest))
  {
    var size: nat := |produced|;
    assert size % U32 == size;
    Word32(uncompressed);
    Word32(size);
    ReceiveParts(Encode(uncompressed, 4), Encode(size, 4), produced, rest);
  }
}
