/**
 The list of areas for any caller: which records get_proc_maps_list of rwMem/proc_maps.h writes into a buffer of
 any size, announced with any size and any name length.
 */
module MapSlots {
  import opened Bytes
  import opened ProcMaps
  import opened MapRecords

  lemma PutFails(user: seq<byte>, pos: nat, a: seq<byte>, b: seq<byte>, c: seq<byte>, d: seq<byte>)
    requires pos + |a| + |b| + |c| + |d| > |user|
    ensures !Put(user, pos, [a, b, c, d], 0).ok
    ensures forall j :: 0 <= j < pos && j < |user| ==> Put(user, pos, [a, b, c, d], 0).user[j] == user[j]
  {
    var ps := [a, b, c, d];
    if pos + |a| <= |user| {
      var u1 := Splice(user, pos, a);
      assert Put(user, pos, ps, 0) == Put(u1, pos + |a|, ps, 1);
      if pos + |a| + |b| <= |user| {
        var u2 := Splice(u1, pos + |a|, b);
        assert Put(u1, pos + |a|, ps, 1) == Put(u2, pos + |a| + |b|, ps, 2);
        if pos + |a| + |b| + |c| <= |user| {
          var u3 := Splice(u2, pos + |a| + |b|, c);
          assert Put(u2, pos + |a| + |b|, ps, 2) == Put(u3, pos + |a| + |b| + |c|, ps, 3);
        }
      }
    }
  }

  /** Room for a record of need bytes at position at of a buffer of size bytes that was announced to end at end. */
  predicate HasRoom(size: nat, at: nat, end: nat, need: nat) {
    at < end && at + need <= size
  }

  /** The i-th slot from pos on. */
  function SlotAt(pos: nat, i: nat, stride: nat): nat {
    if i == 0 then pos else SlotAt(pos, i - 1, stride) + stride
  }

  lemma {:induction false} SlotAtIs(pos: nat, i: nat, stride: nat)
    ensures SlotAt(pos, i, stride) == pos + i * stride
  {
    if i > 0 {
      SlotAtIs(pos, i - 1, stride);
    }
  }

  /** Slot i from pos on holds record k + i. */
  ghost predicate SlotHolds(user: seq<byte>, pos: nat, end: nat, stride: nat, i: nat, want: seq<seq<byte>>, k: nat) {
    && k + i < |want|
    && var at, rec := SlotAt(pos, i, stride), want[k + i];
       HasRoom(|user|, at, end, |rec|) && user[at..at + |rec|] == rec
  }

  /**
   What w holds of the records from k on, each of need bytes: they stand in their slots from pos on in order, as
   long as the next one starts before the announced end and fits in the buffer, and pass tells whether some are
   missing.
   */
  ghost predicate WroteWhatFits(
    w: Written, before: seq<byte>, pos: nat, end: nat, stride: nat, need: nat, want: seq<seq<byte>>, k: nat)
  {
    && |w.user| == |before| && (forall j :: 0 <= j < pos && j < |before| ==> w.user[j] == before[j])
    && k + w.count <= |want| && (w.pass <==> k + w.count < |want|)
    && (forall i :: 0 <= i < w.count ==> SlotHolds(w.user, pos, end, stride, i, want, k))
    && (w.pass ==> !HasRoom(|before|, SlotAt(pos, w.count, stride), end, need))
  }

  /** The part of the records that is written when maxPath bytes are asked for the name. */
  function Wanted(mm: Mm, maxPath: nat): (want: seq<seq<byte>>)
    requires maxPath > 0
    ensures |want| == |mm.vmas|
    ensures forall i :: 0 <= i < |want| ==>
      want[i] == Record(mm, mm.vmas[i])[..if maxPath > 512 then 532 else 19 + maxPath]
  {
    seq(|mm.vmas|, i requires 0 <= i < |mm.vmas| => Record(mm, mm.vmas[i])[..FIXED + NameCopy(maxPath)])
  }

  /** The walk for any buffer, any announced size and any name length. */
  lemma WritesWhatFits(user: seq<byte>, end: nat, mm: Mm, maxPath: nat) returns (w: Written)
    requires maxPath > 0
    ensures w == Listing(user, mm, maxPath, end)
    ensures var need := if maxPath > 512 then 532 else 19 + maxPath;
      WroteWhatFits(w, user, 8, end, 20 + maxPath, need, Wanted(mm, maxPath), 0)
  {
    var recs, want := AllPieces(mm, maxPath), Wanted(mm, maxPath);
    forall i | 0 <= i < |recs|
      ensures Joins(recs[i], want[i], FIXED + NameCopy(maxPath))
    {
      var v := mm.vmas[i];
      assert IsRecord(recs, mm, maxPath, i);
      PiecesJoin(Encode(v.start, 8), Encode(v.end, 8), FlagBytes(v), NamePage(mm, v), NameCopy(maxPath));
    }
    w := WritesFrom(user, COUNT, end, FIXED + maxPath, FIXED + NameCopy(maxPath), recs, want, 0);
  }

  /** The four pieces of a record in order, need bytes in all. */
  ghost predicate Joins(rec: seq<seq<byte>>, bytes: seq<byte>, need: nat) {
    |rec| == 4 && rec[0] + rec[1] + rec[2] + rec[3] == bytes && |bytes| == need
  }

  lemma PiecesJoin(a: seq<byte>, b: seq<byte>, f: seq<byte>, page: seq<byte>, n: nat)
    requires |a| == |b| == 8 && |f| == 4 && n <= |page|
    ensures (a + b + f + page)[..20 + n] == a + b + f + page[..n]
  {
  }

  lemma {:induction false} WritesFrom(
    user: seq<byte>, pos: nat, end: nat, stride: nat, need: nat, recs: seq<seq<seq<byte>>>, want: seq<seq<byte>>,
    k: nat)
    returns (w: Written)
    requires k <= |want| == |recs| && need <= stride
    requires forall i {:trigger Joins(recs[i], want[i], need)} :: 0 <= i < |recs| ==> Joins(recs[i], want[i], need)
    ensures w == WriteList(user, pos, end, recs, k, stride)
    ensures WroteWhatFits(w, user, pos, end, stride, need, want, k) == true  // compared, to keep it folded
    decreases |recs| - k
  {
    if k == |recs| || pos >= end {
      w := Written(user, 0, k < |recs|);
      WroteNothing(w, user, pos, end, stride, need, want, k);
    } else {
      var c, next := OneTurn(user, pos, end, stride, need, recs, want[k], k);
      if c.ok {
        var rest := WritesFrom(c.user, next, end, stride, need, recs, want, k + 1);
        WroteOneMore(user, pos, end, stride, need, want, k, next, c.user, rest);
        w := rest.(count := rest.count + 1);
      } else {
        w := Written(c.user, 0, true);
        WroteNothing(w, user, pos, end, stride, need, want, k);
      }
    }
  }

  /** One turn of the walk. */
  lemma OneTurn(
    user: seq<byte>, pos: nat, end: nat, stride: nat, need: nat, recs: seq<seq<seq<byte>>>, bytes: seq<byte>, k: nat)
    returns (c: Copied, next: nat)
    requires k < |recs| && pos < end && Joins(recs[k], bytes, need)
    ensures next == pos + stride && |bytes| == need && (c.ok <==> pos + need <= |user|)
    ensures c.ok ==> c.user == Splice(user, pos, bytes)
    ensures |c.user| == |user| && forall j :: 0 <= j < pos && j < |user| ==> c.user[j] == user[j]
    ensures var w := WriteList(c.user, next, end, recs, k + 1, stride);
      WriteList(user, pos, end, recs, k, stride) == if c.ok then w.(count := w.count + 1) else Written(c.user, 0, true)
  {
    c := FirstRecord(user, pos, recs[k], bytes, need);
    next := pos + stride;
  }

  /** A record is written if and only if all of it fits; nothing in front of it changes. */
  lemma FirstRecord(user: seq<byte>, pos: nat, rec: seq<seq<byte>>, bytes: seq<byte>, need: nat) returns (c: Copied)
    requires Joins(rec, bytes, need)
    ensures c == Put(user, pos, rec, 0)
    ensures |bytes| == need && (c.ok <==> pos + need <= |user|)
    ensures c.ok ==> c.user == Splice(user, pos, bytes)
    ensures forall j :: 0 <= j < pos && j < |user| ==> c.user[j] == user[j]
  {
    assert rec == [rec[0], rec[1], rec[2], rec[3]];
    if pos + |bytes| <= |user| {
      PutSucceeds(user, pos, rec[0], rec[1], rec[2], rec[3]);
    } else {
      PutFails(user, pos, rec[0], rec[1], rec[2], rec[3]);
    }
    c := Put(user, pos, rec, 0);
  }

  lemma WroteNothing(
    w: Written, user: seq<byte>, pos: nat, end: nat, stride: nat, need: nat, want: seq<seq<byte>>, k: nat)
    requires k <= |want| && w.count == 0 && (w.pass <==> k < |want|)
    requires |w.user| == |user| && forall j :: 0 <= j < pos && j < |user| ==> w.user[j] == user[j]
    requires w.pass ==> !HasRoom(|user|, pos, end, need)
    ensures WroteWhatFits(w, user, pos, end, stride, need, want, k)
  {
    assert SlotAt(pos, 0, stride) == pos;
  }

  lemma WroteOneMore(
    user: seq<byte>, pos: nat, end: nat, stride: nat, need: nat, want: seq<seq<byte>>, k: nat, next: nat,
    now: seq<byte>, rest: Written)
    requires k < |want| && |want[k]| == need <= stride && next == pos + stride
    requires HasRoom(|user|, pos, end, need) && now == Splice(user, pos, want[k])
    requires WroteWhatFits(rest, now, next, end, stride, need, want, k + 1)
    ensures WroteWhatFits(rest.(count := rest.count + 1), user, pos, end, stride, need, want, k)
  {
    FirstHolds(user, pos, end, stride, want, k, now, rest.user);
    SlotsShift(pos, next, rest.count, stride);
    forall i | 0 < i < rest.count + 1
      ensures SlotHolds(rest.user, pos, end, stride, i, want, k)
    {
      assert SlotHolds(rest.user, next, end, stride, i - 1, want, k + 1);
      SlotsShift(pos, next, i - 1, stride);
    }
  }

  lemma FirstHolds(
    user: seq<byte>, pos: nat, end: nat, stride: nat, want: seq<seq<byte>>, k: nat, now: seq<byte>,
    final: seq<byte>)
    requires k < |want| && |want[k]| <= stride && HasRoom(|user|, pos, end, |want[k]|) && |final| == |user|
    requires now == Splice(user, pos, want[k])
    requires forall j :: 0 <= j < pos + stride && j < |user| ==> final[j] == now[j]
    ensures SlotHolds(final, pos, end, stride, 0, want, k)
    ensures forall j :: 0 <= j < pos && j < |user| ==> final[j] == user[j]
  {
    assert SlotAt(pos, 0, stride) == pos;
    assert final[pos..pos + |want[k]|] == want[k];
  }

  lemma SlotsShift(pos: nat, next: nat, i: nat, stride: nat)
    requires next == pos + stride
    ensures SlotAt(next, i, stride) == SlotAt(pos, i + 1, stride)
  {
    SlotAtIs(next, i, stride);
    SlotAtIs(pos, i + 1, stride);
  }
}
