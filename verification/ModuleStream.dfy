/**
 The module list on the wire: CMD_CREATETOOLHELP32SNAPSHOTEX of CEServer/main.cpp packs records into a
 65536-byte buffer and flushes it when the next record does not fit.
 */
module ModuleStream {
  import opened Options
  import opened Bytes
  import opened RemoteMemory
  import opened MapRecords
  import opened MapParse
  import opened Modules
  import opened Sockets

  const BUFFER: nat := 65536
  const ENTRY: nat := 28  // packed CeModuleEntry

  /** A module as the snapshot holds it. */
  predicate Sendable(m: Module) {
    m.base < U64 && -0x8000_0000 <= m.size < 0x8000_0000 && ENTRY + |m.name| <= BUFFER
  }

  /** result, modulebase, modulepart, modulesize, modulefileoffset and modulenamesize, then the name. */
  function Entry(m: Module): (bs: seq<byte>)
    ensures |bs| == ENTRY + |m.name|
  {
    Encode(1, 4) + Encode(m.base, 8) + Encode(0, 4) + Encode(m.size % U32, 4) + Encode(0, 4) + Encode(|m.name|, 4)
    + m.name
  }

  /** The end record: only result and modulenamesize are set, the fields between are whatever was there. */
  function EndOfList(junk: seq<byte>): (bs: seq<byte>)
    requires |junk| == 20
    ensures |bs| == ENTRY
  {
    Encode(0, 4) + junk + Encode(0, 4)
  }

  /** The reference: the records of the first n modules, one after the other. */
  function Stream(mods: seq<Module>, n: nat): seq<byte>
    requires n <= |mods|
  {
    if n == 0 then [] else Stream(mods, n - 1) + Entry(mods[n - 1])
  }

  /** Append one record to what is in the buffer, after flushing it if there is no room. */
  method PutEntry(
    sock: Socket, out: array<byte>, pos: nat, m: Module, ghost wire: seq<byte>, ghost rest: nat)
    returns (pos': nat)
    requires out.Length == BUFFER && pos <= BUFFER && ENTRY + |m.name| <= BUFFER
    requires !sock.broken ==> sock.sent + out[..pos] == wire
    modifies sock, out
    ensures pos' <= BUFFER && (old(sock.broken) ==> sock.broken)
    ensures !sock.broken ==> sock.sent + out[..pos'] == wire + Entry(m)
    ensures !old(sock.broken) && Carries(old(sock.replies), pos + |Entry(m)| + rest) ==>
      !sock.broken && Carries(sock.replies, pos' + rest)
  {
    var record := Entry(m);
    pos' := pos;
    if pos' + |record| > BUFFER {
      pos' := FlushBuffer(sock, out, pos', wire, |record| + rest);
    }
    pos' := Append(out, pos', record, sock.sent);
  }

  /** Send what is in the buffer; rest is what is still to come behind it. */
  method FlushBuffer(
    sock: Socket, out: array<byte>, pos: nat, ghost wire: seq<byte>, ghost rest: nat)
    returns (pos': nat)
    requires pos <= out.Length && (!sock.broken ==> sock.sent + out[..pos] == wire)
    modifies sock
    ensures pos' == 0 && (old(sock.broken) ==> sock.broken)
    ensures !sock.broken ==> sock.sent + out[..pos'] == wire
    ensures !old(sock.broken) && Carries(old(sock.replies), pos + rest) ==>
      !sock.broken && Carries(sock.replies, rest)
  {
    var _ := sock.SendAll(out[..pos]);
    pos' := 0;
    assert sock.sent + out[..0] == sock.sent;
  }

  /** Store a record behind the first pos bytes of the buffer. */
  method Append(out: array<byte>, pos: nat, record: seq<byte>, ghost sent: seq<byte>) returns (pos': nat)
    requires pos + |record| <= out.Length
    modifies out
    ensures pos' == pos + |record|
    ensures sent + out[..pos'] == sent + old(out[..pos]) + record
  {
    ghost var kept := out[..pos];
    CopyInto(out, pos, record);
    pos' := pos + |record|;
    assert out[..pos'] == kept + record;
  }

  /**
   The whole answer: the bytes sent do not depend on where the buffer was flushed. All of it arrives over a
   connection that does not fail and takes something as many times as there are bytes.
   */
  method SendModules(sock: Socket, mods: seq<Module>, junk: seq<byte>)
    requires (forall i :: 0 <= i < |mods| ==> Sendable(mods[i])) && |junk| == 20
    modifies sock
    ensures old(sock.broken) ==> sock.broken
    ensures !sock.broken ==> sock.sent == old(sock.sent) + Stream(mods, |mods|) + EndOfList(junk)
    ensures !old(sock.broken) && Carries(old(sock.replies), |Stream(mods, |mods|)| + ENTRY) ==> !sock.broken
  {
    var out := new byte[BUFFER](_ => 0);
    var pos: nat := 0;
    ghost var before := sock.sent;
    ghost var fine := !sock.broken && Carries(sock.replies, |Stream(mods, |mods|)| + ENTRY);
    assert sock.sent + out[..0] == before + Stream(mods, 0);
    StreamSplits(mods, 0);
    for i := 0 to |mods|
      invariant pos <= BUFFER && (old(sock.broken) ==> sock.broken)
      invariant !sock.broken ==> sock.sent + out[..pos] == before + Stream(mods, i)
      invariant fine ==> !sock.broken && Carries(sock.replies, pos + (|StreamFrom(mods, i)| + ENTRY))
    {
      pos := PutEntry(sock, out, pos, mods[i], before + Stream(mods, i), |StreamFrom(mods, i + 1)| + ENTRY);
      assert before + Stream(mods, i) + Entry(mods[i]) == before + Stream(mods, i + 1);
    }
    if pos > 0 {
      pos := FlushBuffer(sock, out, pos, before + Stream(mods, |mods|), ENTRY);
    }
    assert sock.sent + out[..0] == sock.sent;
    var _ := sock.SendAll(EndOfList(junk));
  }

  /** A received record: its module, or None at the end of the list. */
  function DecodeEntry(bs: seq<byte>): Option<Module>
    requires |bs| >= ENTRY && |bs| >= ENTRY + Decode(bs[24..28])
  {
    if Decode(bs[0..4]) == 0 then None
    else Some(Module(Decode(bs[4..12]), ToInt32(Decode(bs[16..20])), bs[28..28 + Decode(bs[24..28])]))
  }

  /** The receiver: records up to the first with result 0, and what follows it; None if the stream is cut. */
  function DecodeStream(bs: seq<byte>): Option<(seq<Module>, seq<byte>)>
    decreases |bs|
  {
    if |bs| < ENTRY || |bs| < ENTRY + Decode(bs[24..28]) then None
    else
      var size := ENTRY + Decode(bs[24..28]);
      match DecodeEntry(bs)
      case None => Some(([], bs[size..]))
      case Some(m) =>
        match DecodeStream(bs[size..])
        case None => None
        case Some(p) => Some(([m] + p.0, p.1))
  }

  lemma EntryFields(
    r: seq<byte>, b: seq<byte>, p: seq<byte>, s: seq<byte>, f: seq<byte>, n: seq<byte>, name: seq<byte>,
    rest: seq<byte>)
    requires |r| == |p| == |s| == |f| == |n| == 4 && |b| == 8
    ensures var bs := r + b + p + s + f + n + name + rest;
      && bs[0..4] == r && bs[4..12] == b && bs[16..20] == s && bs[24..28] == n
      && bs[28..28 + |name|] == name && bs[28 + |name|..] == rest
  {
  }

  /** A record whose words decode to the fields of m decodes to m. */
  lemma EntryDecodes(
    r: seq<byte>, b: seq<byte>, p: seq<byte>, s: seq<byte>, f: seq<byte>, n: seq<byte>, m: Module,
    tail: seq<byte>)
    requires |r| == |p| == |s| == |f| == |n| == 4 && |b| == 8
    requires Decode(r) == 1 && Decode(b) == m.base && ToInt32(Decode(s)) == m.size && Decode(n) == |m.name|
    ensures var bs := r + b + p + s + f + n + m.name + tail;
      && Decode(bs[24..28]) == |m.name| && DecodeEntry(bs) == Some(m) && bs[ENTRY + |m.name|..] == tail
  {
    EntryFields(r, b, p, s, f, n, m.name, tail);
  }

  /** The layout of a record: result 1, base, a zero, size, a zero, the length of the name, and the name. */
  lemma EntryLayout(m: Module)
    requires Sendable(m)
    ensures var bs := Entry(m);
      && Decode(bs[0..4]) == 1 && Decode(bs[4..12]) == m.base && ToInt32(Decode(bs[16..20])) == m.size
      && Decode(bs[12..16]) == Decode(bs[20..24]) == 0 && Decode(bs[24..28]) == |m.name| && bs[28..] == m.name
  {
    Word32(1);
    Word64(m.base);
    Word32(0);
    Word32(m.size % U32);
    Word32(|m.name|);
    EntryParts(Encode(1, 4), Encode(m.base, 8), Encode(0, 4), Encode(m.size % U32, 4), Encode(|m.name|, 4), m.name);
  }

  lemma EntryParts(r: seq<byte>, b: seq<byte>, z: seq<byte>, s: seq<byte>, n: seq<byte>, name: seq<byte>)
    requires |r| == |z| == |s| == |n| == 4 && |b| == 8
    ensures var bs := r + b + z + s + z + n + name;
      && bs[0..4] == r && bs[4..12] == b && bs[12..16] == z && bs[16..20] == s && bs[20..24] == z
      && bs[24..28] == n && bs[28..] == name
  {
  }

  lemma EntryRoundTrip(m: Module, tail: seq<byte>)
    requires Sendable(m)
    ensures var bs := Entry(m) + tail;
      && Decode(bs[24..28]) == |m.name| && DecodeEntry(bs) == Some(m) && bs[ENTRY + |m.name|..] == tail
  {
    Word32(1);
    Word64(m.base);
    Word32(m.size % U32);
    Word32(|m.name|);
    EntryDecodes(
      Encode(1, 4), Encode(m.base, 8), Encode(0, 4), Encode(m.size % U32, 4), Encode(0, 4), Encode(|m.name|, 4),
      m, tail);
  }

  lemma DecodeCons(m: Module, tail: seq<byte>, mods: seq<Module>, rest: seq<byte>)
    requires Sendable(m) && DecodeStream(tail) == Some((mods, rest))
    ensures DecodeStream(Entry(m) + tail) == Some(([m] + mods, rest))
  {
    EntryRoundTrip(m, tail);
  }

  /** The end record has result 0 and no name. */
  lemma EndLayout(junk: seq<byte>)
    requires |junk| == 20
    ensures var bs := EndOfList(junk); |bs| == 28 && Decode(bs[0..4]) == Decode(bs[24..28]) == 0
  {
    var bs := EndOfList(junk);
    assert bs[0..4] == Encode(0, 4) && bs[24..28] == Encode(0, 4);
    Word32(0);
  }

  lemma EndRoundTrip(junk: seq<byte>, rest: seq<byte>)
    requires |junk| == 20
    ensures DecodeStream(EndOfList(junk) + rest) == Some(([], rest))
  {
    var bs := EndOfList(junk) + rest;
    assert bs[0..4] == Encode(0, 4) && bs[24..28] == Encode(0, 4) && bs[28..] == rest;
    Word32(0);
  }

  /** The records of the modules from n on. */
  function StreamFrom(mods: seq<Module>, n: nat): seq<byte>
    requires n <= |mods|
    decreases |mods| - n
  {
    if n == |mods| then [] else Entry(mods[n]) + StreamFrom(mods, n + 1)
  }

  lemma {:induction false} StreamSplits(mods: seq<Module>, n: nat)
    requires n <= |mods|
    ensures Stream(mods, n) + StreamFrom(mods, n) == Stream(mods, |mods|)
    decreases |mods| - n
  {
    if n < |mods| {
      StreamSplits(mods, n + 1);
      assert Stream(mods, n) + (Entry(mods[n]) + StreamFrom(mods, n + 1))
          == Stream(mods, n) + Entry(mods[n]) + StreamFrom(mods, n + 1);
    }
  }

  lemma DecodeNext(mods: seq<Module>, n: nat, tail: seq<byte>, rest: seq<byte>) returns (wire: seq<byte>)
    requires n < |mods| && Sendable(mods[n]) && DecodeStream(tail) == Some((mods[n + 1..], rest))
    ensures wire == Entry(mods[n]) + tail && DecodeStream(wire) == Some((mods[n..], rest))
  {
    wire := Entry(mods[n]) + tail;
    DecodeCons(mods[n], tail, mods[n + 1..], rest);
    assert mods[n..] == [mods[n]] + mods[n + 1..];
  }

  lemma {:induction false} DecodeFrom(
    mods: seq<Module>, n: nat, junk: seq<byte>, rest: seq<byte>)
    returns (wire: seq<byte>)
    requires n <= |mods| && (forall i :: 0 <= i < |mods| ==> Sendable(mods[i])) && |junk| == 20
    ensures wire == StreamFrom(mods, n) + EndOfList(junk) + rest
    ensures DecodeStream(wire) == Some((mods[n..], rest))
    decreases |mods| - n
  {
    if n == |mods| {
      EndRoundTrip(junk, rest);
      wire := EndOfList(junk) + rest;
      assert StreamFrom(mods, n) == [] && mods[n..] == [];
      assert wire == [] + EndOfList(junk) + rest;
    } else {
      var tail := DecodeFrom(mods, n + 1, junk, rest);
      wire := DecodeNext(mods, n, tail, rest);
      Regroup(Entry(mods[n]), StreamFrom(mods, n + 1), EndOfList(junk), rest);
    }
  }

  lemma Regroup(a: seq<byte>, b: seq<byte>, c: seq<byte>, d: seq<byte>)
    ensures a + (b + c + d) == (a + b) + c + d
  {
  }

  /** A receiver that decodes up to the end record gets the module list back. */
  lemma StreamRoundTrip(mods: seq<Module>, junk: seq<byte>, rest: seq<byte>)
    requires (forall i :: 0 <= i < |mods| ==> Sendable(mods[i])) && |junk| == 20
    ensures DecodeStream(Stream(mods, |mods|) + EndOfList(junk) + rest) == Some((mods, rest))
  {
    StreamSplits(mods, 0);
    assert Stream(mods, 0) + StreamFrom(mods, 0) == StreamFrom(mods, 0);
    var _ := DecodeFrom(mods, 0, junk, rest);
    assert mods[0..] == mods;
  }

  /** The names the kernel gives have at most 511 bytes, so every record of a snapshot fits the buffer. */
  lemma {:induction false} SnapshotIsSendable(
    regions: seq<DriverRegion>, n: nat, elf: nat -> bool)
    returns (mods: seq<Module>)
    requires n <= |regions| && forall i :: 0 <= i < |regions| ==> regions[i].base < U64 && |regions[i].name| < PATH_MAX
    ensures mods == AddRegions(regions, n, elf) && forall k :: 0 <= k < |mods| ==> Sendable(mods[k])
  {
    mods := [];
    if n > 0 {
      var before := SnapshotIsSendable(regions, n - 1, elf);
      mods := AddRegion(before, regions[n - 1], elf);
    }
  }
}
