/**
 The wire form of the memory map: get_proc_maps_list and the MAPS_LIST ioctl write one record per area into
 the caller's buffer, and both clients parse it.
 */
module MapRecords {
  import opened Bytes
  import opened ProcMaps
  import opened RemoteMemory

  const PATH_MAX: nat := 512
  const FIXED: nat := 20             // start, end and four flags
  const RECORD: nat := 532           // with the name length of 512 both clients ask for
  const COUNT: nat := 8              // the record count in front

  /** A C string: the bytes before the first NUL. */
  function UpToNul(bs: seq<byte>): (s: seq<byte>)
    ensures |s| <= |bs| && s == bs[..|s|]
    ensures forall i :: 0 <= i < |s| ==> s[i] != 0
    ensures |s| < |bs| ==> bs[|s|] == 0
  {
    if bs == [] || bs[0] == 0 then [] else [bs[0]] + UpToNul(bs[1..])
  }

  const VDSO: seq<byte> := [0x5b, 0x76, 0x64, 0x73, 0x6f, 0x5d]
  const HEAP: seq<byte> := [0x5b, 0x68, 0x65, 0x61, 0x70, 0x5d]
  const STACK: seq<byte> := [0x5b, 0x73, 0x74, 0x61, 0x63, 0x6b, 0x5d]

  /** The name the kernel gives an area: the path of its file cut to 511 bytes, or its role. */
  function NameOf(mm: Mm, v: Vma): (name: seq<byte>)
    ensures |name| < PATH_MAX && forall i :: 0 <= i < |name| ==> name[i] != 0
  {
    match v.path
    case Some(p) =>
      var s := UpToNul(p);
      if |s| < PATH_MAX then s else s[..PATH_MAX - 1]
    case None =>
      if v.start == mm.vdso then VDSO
      else if v.start <= mm.brk && v.end >= mm.startBrk then HEAP
      else if v.start <= mm.startStack && v.end >= mm.startStack then STACK
      else []
  }

  /** The bytes of an ASCII text. */
  function Ascii(text: string): (bs: seq<byte>)
    requires forall i :: 0 <= i < |text| ==> text[i] as int < 128
    ensures |bs| == |text| && forall i :: 0 <= i < |bs| ==> bs[i] == text[i] as int
  {
    seq(|text|, i requires 0 <= i < |text| => text[i] as int)
  }

  /** A mapped file gives its path up to the first NUL and at most 511 bytes; another area is named by its role. */
  lemma NameTells(mm: Mm, v: Vma)
    ensures var name := NameOf(mm, v);
      match v.path
      case Some(p) =>
        && name <= p && 0 !in name
        && (|name| == |p| || |name| == 511 || p[|name|] == 0)
      case None =>
        if v.start == mm.vdso then name == Ascii("[vdso]")
        else if v.start <= mm.brk && mm.startBrk <= v.end then name == Ascii("[heap]")
        else if v.start <= mm.startStack <= v.end then name == Ascii("[stack]")
        else name == []
  {
  }

  /** new_path: the name, zero filled. */
  function NamePage(mm: Mm, v: Vma): (page: seq<byte>)
    ensures |page| == PATH_MAX && page[PATH_MAX - 1] == 0
  {
    NameOf(mm, v) + Zeros(PATH_MAX - |NameOf(mm, v)|)
  }

  function FlagByte(b: bool): byte {
    if b then 1 else 0
  }

  function FlagBytes(v: Vma): seq<byte> {
    [FlagByte(v.read), FlagByte(v.write), FlagByte(v.exec), FlagByte(v.mayShare)]
  }

  /** How much of the name page is copied; the rest of the field is skipped. */
  function NameCopy(maxPath: nat): nat
    requires maxPath > 0
  {
    if maxPath > PATH_MAX then PATH_MAX else maxPath - 1
  }

  /** The four user copies of one record, in order. */
  function Pieces(mm: Mm, v: Vma, maxPath: nat): (ps: seq<seq<byte>>)
    requires maxPath > 0
  {
    [Encode(v.start, 8), Encode(v.end, 8), FlagBytes(v), NamePage(mm, v)[..NameCopy(maxPath)]]
  }

  /** For any name length the field holds as much of the name as leaves room for a NUL, and no more than the name. */
  lemma FieldHoldsName(mm: Mm, v: Vma, maxPath: nat)
    requires maxPath > 0
    ensures var field, name := Pieces(mm, v, maxPath)[3], NameOf(mm, v);
      |field| <= maxPath && UpToNul(field) == if |name| < maxPath then name else name[..maxPath - 1]
  {
    var field, name := Pieces(mm, v, maxPath)[3], NameOf(mm, v);
    var n := if |name| < maxPath then |name| else maxPath - 1;
    assert field[..n] == name[..n];
    CutAt(field, n);
  }

  /** A C string ends at its n-th byte. */
  ghost predicate EndsAt(bs: seq<byte>, n: nat) {
    n <= |bs| && (forall i :: 0 <= i < n ==> bs[i] != 0) && (n < |bs| ==> bs[n] == 0)
  }

  lemma OneEnd(bs: seq<byte>, n: nat, m: nat)
    requires EndsAt(bs, n) && EndsAt(bs, m)
    ensures n == m
  {
  }

  lemma CutAt(bs: seq<byte>, n: nat)
    requires EndsAt(bs, n)
    ensures UpToNul(bs) == bs[..n]
  {
    var s := UpToNul(bs);
    OneEnd(bs, n, |s|);
  }

  /** The caller's buffer after some copies, and whether all of them succeeded. */
  datatype Copied = Copied(user: seq<byte>, ok: bool)

  /** The user copies from number i on; one that would leave the buffer fails and ends the record. */
  function Put(user: seq<byte>, pos: nat, ps: seq<seq<byte>>, i: nat): (c: Copied)
    requires i <= |ps|
    ensures |c.user| == |user|
    decreases |ps| - i
  {
    if i == |ps| then Copied(user, true)
    else if pos + |ps[i]| > |user| then Copied(user, false)
    else Put(Splice(user, pos, ps[i]), pos + |ps[i]|, ps, i + 1)
  }

  /** The record as the clients expect it. */
  function Record(mm: Mm, v: Vma): (bs: seq<byte>)
    ensures |bs| == RECORD
  {
    Encode(v.start, 8) + Encode(v.end, 8) + FlagBytes(v) + NamePage(mm, v)
  }

  /** The layout: two words, the four permission bytes, and the name in a field that ends in NUL. */
  lemma RecordLayout(mm: Mm, v: Vma)
    ensures var r := Record(mm, v);
      && Decode(r[0..8]) == v.start && Decode(r[8..16]) == v.end
      && (r[16] == 1 <==> v.read) && (r[17] == 1 <==> v.write)
      && (r[18] == 1 <==> v.exec) && (r[19] == 1 <==> v.mayShare)
      && (forall i :: 16 <= i < 20 ==> r[i] == 0 || r[i] == 1)
      && UpToNul(r[20..]) == NameOf(mm, v) && r[531] == 0
  {
    var a, b, page := Encode(v.start, 8), Encode(v.end, 8), NamePage(mm, v);
    RecordParts(a, b, FlagBytes(v), page);
    Word64(v.start);
    Word64(v.end);
    CutAt(page, |NameOf(mm, v)|);
    assert page[..|NameOf(mm, v)|] == NameOf(mm, v);
  }

  lemma RecordParts(a: seq<byte>, b: seq<byte>, f: seq<byte>, page: seq<byte>)
    requires |a| == |b| == 8 && |f| == 4 && |page| == PATH_MAX
    ensures var r := a + b + f + page;
      && r[0..8] == a && r[8..16] == b && r[20..] == page && r[531] == page[511]
      && r[16] == f[0] && r[17] == f[1] && r[18] == f[2] && r[19] == f[3]
  {
  }

  /** The caller's buffer, the number of whole records in it, and whether areas were left out. */
  datatype Written = Written(user: seq<byte>, count: nat, pass: bool)

  /** Number k of recs is the record of area k. */
  ghost predicate IsRecord(recs: seq<seq<seq<byte>>>, mm: Mm, maxPath: nat, k: nat)
    requires maxPath > 0
  {
    k < |recs| == |mm.vmas| && recs[k] == Pieces(mm, mm.vmas[k], maxPath)
  }

  /** The copies of all records. */
  function AllPieces(mm: Mm, maxPath: nat): (recs: seq<seq<seq<byte>>>)
    requires maxPath > 0
    ensures |recs| == |mm.vmas| && forall k :: 0 <= k < |recs| ==> IsRecord(recs, mm, maxPath, k)
  {
    seq(|mm.vmas|, i requires 0 <= i < |mm.vmas| => Pieces(mm, mm.vmas[i], maxPath))
  }

  /** The walk of get_proc_maps_list from record k and position pos on; room is checked only before a record. */
  function WriteList(user: seq<byte>, pos: nat, end: nat, recs: seq<seq<seq<byte>>>, k: nat, stride: nat): (w: Written)
    requires k <= |recs|
    ensures |w.user| == |user|
    decreases |recs| - k
  {
    if k == |recs| then Written(user, 0, false)
    else if pos >= end then Written(user, 0, true)
    else
      var c := Put(user, pos, recs[k], 0);
      if !c.ok then Written(c.user, 0, true)
      else
        var w := WriteList(c.user, pos + stride, end, recs, k + 1, stride);
        w.(count := w.count + 1)
  }

  /** The whole walk, behind the place of the count. */
  function Listing(user: seq<byte>, mm: Mm, maxPath: nat, end: nat): Written
    requires maxPath > 0
  {
    WriteList(user, COUNT, end, AllPieces(mm, maxPath), 0, FIXED + maxPath)
  }

  /** The copies of one record, in the caller's memory. */
  method PutRecord(user: array<byte>, pos: nat, mm: Mm, v: Vma, maxPath: nat) returns (ok: bool)
    requires maxPath > 0
    modifies user
    ensures Put(old(user[..]), pos, Pieces(mm, v, maxPath), 0) == Copied(user[..], ok)
  {
    ok := PutPieces(user, pos, Pieces(mm, v, maxPath));
  }

  method PutPieces(user: array<byte>, pos: nat, ps: seq<seq<byte>>) returns (ok: bool)
    modifies user
    ensures Put(old(user[..]), pos, ps, 0) == Copied(user[..], ok)
  {
    var at: nat, i: nat := pos, 0;
    ghost var whole := Put(user[..], pos, ps, 0);
    while i < |ps|
      invariant i <= |ps| && whole == Put(user[..], at, ps, i)
    {
      if at + |ps[i]| > user.Length {
        return false;
      }
      CopyInto(user, at, ps[i]);
      at, i := at + |ps[i]|, i + 1;
    }
    return true;
  }

  /** k records are out, and the rest of the walk starts from user and pos. */
  ghost predicate Halfway(
    whole: Written, user: seq<byte>, pos: nat, end: nat, recs: seq<seq<seq<byte>>>, k: nat, stride: nat)
    requires k <= |recs|
  {
    var w := WriteList(user, pos, end, recs, k, stride);
    whole == w.(count := w.count + k)
  }

  lemma NextRecord(whole: Written, user: seq<byte>, pos: nat, end: nat, recs: seq<seq<seq<byte>>>, k: nat, stride: nat)
    requires k < |recs| && Halfway(whole, user, pos, end, recs, k, stride)
    ensures pos >= end ==> whole == Written(user, k, true)
    ensures pos < end ==>
      var c := Put(user, pos, recs[k], 0);
      if c.ok then Halfway(whole, c.user, pos + stride, end, recs, k + 1, stride) else whole == Written(c.user, k, true)
  {
  }

  lemma HalfwayStarts(user: seq<byte>, pos: nat, end: nat, recs: seq<seq<seq<byte>>>, stride: nat)
    returns (whole: Written)
    ensures whole == WriteList(user, pos, end, recs, 0, stride)
    ensures Halfway(whole, user, pos, end, recs, 0, stride)
  {
    whole := WriteList(user, pos, end, recs, 0, stride);
  }

  lemma HalfwayEnds(whole: Written, user: seq<byte>, pos: nat, end: nat, recs: seq<seq<seq<byte>>>, stride: nat)
    requires Halfway(whole, user, pos, end, recs, |recs|, stride)
    ensures whole == Written(user, |recs|, false)
  {
  }

  /** One turn of the loop: room check, then the record. */
  method TryRecord(user: array<byte>, pos: nat, end: nat, mm: Mm, k: nat, maxPath: nat,
                   ghost recs: seq<seq<seq<byte>>>, ghost whole: Written)
    returns (ok: bool)
    requires maxPath > 0 && IsRecord(recs, mm, maxPath, k)
    requires Halfway(whole, user[..], pos, end, recs, k, FIXED + maxPath)
    modifies user
    ensures !ok ==> whole == Written(user[..], k, true)
    ensures ok ==> Halfway(whole, user[..], pos + (FIXED + maxPath), end, recs, k + 1, FIXED + maxPath)
  {
    NextRecord(whole, user[..], pos, end, recs, k, FIXED + maxPath);
    if pos >= end {
      return false;
    }
    ok := PutRecord(user, pos, mm, mm.vmas[k], maxPath);
  }

  /** get_proc_maps_list for a user buffer. */
  method GetProcMapsList(user: array<byte>, mm: Mm, maxPath: nat, end: nat) returns (success: nat, pass: bool)
    requires maxPath > 0
    modifies user
    ensures Listing(old(user[..]), mm, maxPath, end) == Written(user[..], success, pass)
  {
    ghost var recs := AllPieces(mm, maxPath);
    ghost var whole := HalfwayStarts(user[..], COUNT, end, recs, FIXED + maxPath);
    success, pass := WalkAreas(user, mm, maxPath, end, recs, whole);
  }

  /** Its loop over the areas. */
  method WalkAreas(
    user: array<byte>, mm: Mm, maxPath: nat, end: nat, ghost recs: seq<seq<seq<byte>>>, ghost whole: Written)
    returns (success: nat, pass: bool)
    requires maxPath > 0 && |recs| == |mm.vmas| && forall k :: 0 <= k < |recs| ==> IsRecord(recs, mm, maxPath, k)
    requires Halfway(whole, user[..], COUNT, end, recs, 0, FIXED + maxPath)
    modifies user
    ensures whole == Written(user[..], success, pass)
  {
    var pos: nat := COUNT;
    success, pass := 0, false;
    while success < |mm.vmas| && !pass
      invariant success <= |mm.vmas|
      invariant pass ==> whole == Written(user[..], success, pass)
      // compared with true, to keep it folded
      invariant (pass || Halfway(whole, user[..], pos, end, recs, success, FIXED + maxPath)) == true
      decreases |mm.vmas| - success, !pass
    {
      var ok := TryRecord(user, pos, end, mm, success, maxPath, recs, whole);
      if ok {
        pos, success := pos + (FIXED + maxPath), success + 1;
      } else {
        pass := true;
      }
    }
    if !pass {
      HalfwayEnds(whole, user[..], pos, end, recs, FIXED + maxPath);
    }
  }

  lemma PutSucceeds(user: seq<byte>, pos: nat, a: seq<byte>, b: seq<byte>, c: seq<byte>, d: seq<byte>)
    requires pos + |a| + |b| + |c| + |d| <= |user|
    ensures Put(user, pos, [a, b, c, d], 0) == Copied(Splice(user, pos, a + b + c + d), true)
  {
    var ps := [a, b, c, d];
    var u1 := Splice(user, pos, a);
    var u2 := Splice(u1, pos + |a|, b);
    var u3 := Splice(u2, pos + |a| + |b|, c);
    SpliceJoins(user, pos, a, b);
    SpliceJoins(user, pos, a + b, c);
    SpliceJoins(user, pos, a + b + c, d);
    assert Put(user, pos, ps, 0) == Put(u1, pos + |a|, ps, 1);
    assert Put(u1, pos + |a|, ps, 1) == Put(u2, pos + |a| + |b|, ps, 2);
    assert Put(u2, pos + |a| + |b|, ps, 2) == Put(u3, pos + |a| + |b| + |c|, ps, 3);
  }

  /** With the name length of the clients a record fits its slot, all but the last byte, which stays as it was. */
  lemma PutRecordFits(user: seq<byte>, pos: nat, mm: Mm, v: Vma)
    requires pos + RECORD <= |user| && user[pos + RECORD - 1] == 0
    ensures Put(user, pos, Pieces(mm, v, PATH_MAX), 0) == Copied(Splice(user, pos, Record(mm, v)), true)
  {
    var page := NamePage(mm, v)[..PATH_MAX - 1];
    PutSucceeds(user, pos, Encode(v.start, 8), Encode(v.end, 8), FlagBytes(v), page);
    RecordEndsInZero(mm, v);
    ZeroStays(user, pos, Encode(v.start, 8) + Encode(v.end, 8) + FlagBytes(v) + page);
  }

  lemma ZeroStays(user: seq<byte>, pos: nat, front: seq<byte>)
    requires pos + |front| < |user| && user[pos + |front|] == 0
    ensures Splice(user, pos, front) == Splice(user, pos, front + [0])
  {
  }

  lemma RecordEndsInZero(mm: Mm, v: Vma)
    ensures Encode(v.start, 8) + Encode(v.end, 8) + FlagBytes(v) + NamePage(mm, v)[..PATH_MAX - 1] + [0]
         == Record(mm, v)
  {
    assert NamePage(mm, v) == NamePage(mm, v)[..PATH_MAX - 1] + [0];
  }

  /** Record slot i of a list that starts at pos. */
  function Slot(user: seq<byte>, pos: nat, i: nat): (bs: seq<byte>)
    requires pos + RECORD * (i + 1) <= |user|
    ensures |bs| == RECORD
  {
    user[pos + RECORD * i..pos + RECORD * (i + 1)]
  }

  /** room more slots are free from pos on, zero behind the 16 bytes where the request may still stand. */
  ghost predicate FreeSlots(user: seq<byte>, pos: nat, room: nat) {
    && |user| == pos + RECORD * room
    && forall j :: pos + 16 <= j < |user| ==> user[j] == 0
  }

  function Min(a: nat, b: nat): nat {
    if a < b then a else b
  }

  /** The records of all areas. */
  function Records(mm: Mm): (recs: seq<seq<byte>>)
    ensures |recs| == |mm.vmas|
    ensures forall i :: 0 <= i < |recs| ==> recs[i] == Record(mm, mm.vmas[i])
  {
    seq(|mm.vmas|, i requires 0 <= i < |mm.vmas| => Record(mm, mm.vmas[i]))
  }

  /** w holds the records from k on, up to room of them, and reports areas left out if there are more. */
  ghost predicate Filled(w: Written, before: seq<byte>, pos: nat, room: nat, recs: seq<seq<byte>>, k: nat)
    requires k <= |recs| && |before| == pos + RECORD * room
  {
    && |w.user| == |before| && w.user[..pos] == before[..pos]
    && w.count == Min(|recs| - k, room) && (w.pass <==> |recs| - k > room)
    && (forall i :: 0 <= i < w.count ==> Slot(w.user, pos, i) == recs[k + i])
  }

  lemma FirstSlot(now: seq<byte>, user: seq<byte>, pos: nat, rec: seq<byte>)
    requires |now| == |user| && pos + RECORD <= |user| && |rec| == RECORD
    requires now[..pos + RECORD] == Splice(user, pos, rec)[..pos + RECORD]
    ensures now[..pos] == user[..pos] && Slot(now, pos, 0) == rec
  {
    forall i | 0 <= i < pos + RECORD
      ensures now[i] == if i < pos then user[i] else rec[i - pos]
    {
      assert now[i] == now[..pos + RECORD][i];
    }
  }

  lemma NextSlot(now: seq<byte>, pos: nat, i: nat)
    requires i > 0 && pos + RECORD * (i + 1) <= |now|
    ensures Slot(now, pos, i) == Slot(now, pos + RECORD, i - 1)
  {
  }

  lemma FilledNext(w: Written, user: seq<byte>, pos: nat, room: nat, recs: seq<seq<byte>>, k: nat)
    requires k < |recs| && room > 0 && |user| == pos + RECORD * room && |recs[k]| == RECORD
    requires Filled(w, Splice(user, pos, recs[k]), pos + RECORD, room - 1, recs, k + 1)
    ensures Filled(w.(count := w.count + 1), user, pos, room, recs, k)
  {
    FirstSlot(w.user, user, pos, recs[k]);
    forall i | 0 <= i < w.count + 1
      ensures Slot(w.user, pos, i) == recs[k + i]
    {
      if i > 0 {
        NextSlot(w.user, pos, i);
        assert Slot(w.user, pos + RECORD, i - 1) == recs[k + 1 + (i - 1)];
      }
    }
  }

  /** The walk with the name length of the clients. */
  function ClientList(user: seq<byte>, pos: nat, mm: Mm, k: nat): Written
    requires k <= |mm.vmas|
  {
    WriteList(user, pos, |user|, AllPieces(mm, PATH_MAX), k, RECORD)
  }

  /** The list fills one slot per area, in order, and reports areas left out exactly when the slots run out. */
  lemma {:induction false} ListFillsSlots(user: seq<byte>, pos: nat, room: nat, mm: Mm, k: nat) returns (w: Written)
    requires k <= |mm.vmas| && FreeSlots(user, pos, room)
    ensures w == ClientList(user, pos, mm, k) && Filled(w, user, pos, room, Records(mm), k)
    decreases |mm.vmas| - k, 1
  {
    if k == |mm.vmas| {
      w := Written(user, 0, false);
    } else if room == 0 {
      w := Written(user, 0, true);
    } else {
      var rest := ListFillsRest(user, pos, room, mm, k);
      FilledNext(rest, user, pos, room, Records(mm), k);
      w := rest.(count := rest.count + 1);
    }
  }

  lemma WriteListStep(
    user: seq<byte>, pos: nat, end: nat, recs: seq<seq<seq<byte>>>, k: nat, stride: nat, next: seq<byte>)
    requires k < |recs| && pos < end && Put(user, pos, recs[k], 0) == Copied(next, true)
    ensures var w := WriteList(next, pos + stride, end, recs, k + 1, stride);
      WriteList(user, pos, end, recs, k, stride) == w.(count := w.count + 1)
  {
  }

  /** One turn of the walk with the name length of the clients. */
  lemma ClientTurn(user: seq<byte>, pos: nat, mm: Mm, k: nat, rec: seq<byte>) returns (next: seq<byte>)
    requires k < |mm.vmas| && pos + RECORD <= |user| && user[pos + RECORD - 1] == 0 && rec == Record(mm, mm.vmas[k])
    ensures next == Splice(user, pos, rec)
    ensures var w := ClientList(next, pos + RECORD, mm, k + 1); ClientList(user, pos, mm, k) == w.(count := w.count + 1)
  {
    PutRecordFits(user, pos, mm, mm.vmas[k]);
    assert IsRecord(AllPieces(mm, PATH_MAX), mm, PATH_MAX, k);
    next := Splice(user, pos, rec);
    WriteListStep(user, pos, |user|, AllPieces(mm, PATH_MAX), k, RECORD, next);
  }

  lemma {:induction false} ListFillsRest(user: seq<byte>, pos: nat, room: nat, mm: Mm, k: nat) returns (rest: Written)
    requires k < |mm.vmas| && room > 0 && FreeSlots(user, pos, room)
    ensures ClientList(user, pos, mm, k) == rest.(count := rest.count + 1)
    ensures Filled(rest, Splice(user, pos, Records(mm)[k]), pos + RECORD, room - 1, Records(mm), k + 1)
    decreases |mm.vmas| - k, 0
  {
    var next := ClientTurn(user, pos, mm, k, Records(mm)[k]);
    rest := ListFillsSlots(next, pos + RECORD, room - 1, mm, k + 1);
  }

  /** The 24 bytes in front of the caller's buffer. */
  datatype ListRequest = ListRequest(pid: int, nameLen: nat, bufSize: nat)

  function ParseListRequest(b: seq<byte>): ListRequest
    requires |b| >= 24
  {
    ListRequest(ToInt32(Decode(b[0..8])), Decode(b[8..16]), Decode(b[16..24]))
  }

  /** What get_proc_maps_list returns to the ioctl; its error codes become large unsigned counts. */
  function ListResult(user: seq<byte>, q: ListRequest, task: Task): Written {
    if q.nameLen == 0 then Written(user, U64 - 1, false)
    else match task
      case Exited => Written(user, U64 - 2, false)
      case NoMm => Written(user, U64 - 3, false)
      case Running(mm) => Listing(user, mm, q.nameLen, q.bufSize)
  }

  /** The error codes -1, -2 and -3 arrive as counts, with the buffer as it was and nothing reported as left out. */
  lemma ErrorsBecomeCounts(user: seq<byte>, q: ListRequest, task: Task)
    ensures var w := ListResult(user, q, task);
      var code := if q.nameLen == 0 then -1 else if task.Exited? then -2 else -3;
      q.nameLen == 0 || !task.Running? ==>
        w.user == user && !w.pass && w.count < U64 && w.count == U64 + code && ToInt32(w.count) == code
  {
  }

  /** IOCTL_GET_PROCESS_MAPS_LIST: the list behind the count, and 1 if areas were left out. */
  method MapsList(procs: Procs, user: array<byte>) returns (r: int)
    modifies user
    ensures user.Length < 24 ==> r == -EINVAL && user[..] == old(user[..])
    ensures user.Length >= 24 ==>
      var q := ParseListRequest(old(user[..]));
      if q.pid !in procs then r == -EINVAL && user[..] == old(user[..])
      else
        var w := ListResult(old(user[..]), q, procs[q.pid]);
        && r == (if w.pass then 1 else 0)
        && |w.user| == user.Length && user[..] == Splice(w.user, 0, Encode(w.count, 8))
  {
    if user.Length < 24 {
      return -EINVAL;
    }
    var q := ParseListRequest(user[..]);
    if q.pid !in procs {
      return -EINVAL;
    }
    var count, pass := WriteMaps(user, q, procs[q.pid]);
    CopyInto(user, 0, Encode(count, 8));
    r := if pass then 1 else 0;
  }

  /** get_proc_maps_list with its error codes. */
  method WriteMaps(user: array<byte>, q: ListRequest, task: Task) returns (count: nat, pass: bool)
    modifies user
    ensures ListResult(old(user[..]), q, task) == Written(user[..], count, pass)
  {
    count, pass := 0, false;
    if q.nameLen == 0 {
      count := U64 - 1;
    } else if task.Exited? {
      count := U64 - 2;
    } else if task.NoMm? {
      count := U64 - 3;
    } else {
      count, pass := GetProcMapsList(user, task.value, q.nameLen, q.bufSize);
    }
  }
}
