/**
 The cached region list of an open process in CEServer/api.cpp: when it is fetched again, and what its
 answers are worth.
 */
module RegionCache {
  import opened Options
  import opened Bytes
  import opened MapParse
  import opened RegionQuery

  const MAX_AGE: nat := 60000

  /** vLastMaps and nLastGetMapsTime; 0 means that there is no list. */
  datatype Cache = Cache(maps: seq<DriverRegion>, stamp: nat)

  /**
   A call with the clock readings it takes and the list the driver would give it. Ask reads the clock on
   entry, and again when it has fetched.
   */
  datatype Call =
    | Ask(addr: nat, now: nat, fetched: seq<DriverRegion>, after: nat)
    | List(noShared: bool, fetched: seq<DriverRegion>, after: nat)

  function Start(): Cache {
    Cache([], 0)
  }

  /** Whether the call asks the driver; the age is an unsigned 64-bit difference. */
  predicate Fetches(c: Cache, call: Call) {
    call.List? || (call.now - c.stamp) % U64 > MAX_AGE
  }

  function After(c: Cache, call: Call): Cache {
    if !Fetches(c, call) then c
    else if call.fetched == [] then Cache([], 0)
    else Cache(call.fetched, call.after)
  }

  /** What VirtualQueryEx reports; a failed fetch reports nothing. */
  function Reply(c: Cache, call: Call): Option<Answer>
    requires call.Ask?
  {
    if Fetches(c, call) && call.fetched == [] then None else QueryAt(After(c, call).maps, call.addr)
  }

  /** What VirtualQueryExFull keeps of a region. */
  predicate Listed(r: DriverRegion, noShared: bool) {
    r.protection != PAGE_NOACCESS && !(noShared && r.kind == MEM_MAPPED)
  }

  function ListFrom(maps: seq<DriverRegion>, n: nat, noShared: bool): seq<DriverRegion>
    requires n <= |maps|
  {
    if n == 0 then []
    else ListFrom(maps, n - 1, noShared) + if Listed(maps[n - 1], noShared) then [maps[n - 1]] else []
  }

  /** struct CeOpenProcess, as far as it holds the list. */
  class OpenProcess {
    var vLastMaps: seq<DriverRegion>
    var nLastGetMapsTime: nat

    ghost function State(): Cache
      reads this
    {
      Cache(vLastMaps, nLastGetMapsTime)
    }

    constructor ()
      ensures State() == Start()
    {
      vLastMaps, nLastGetMapsTime := [], 0;
    }

    method VirtualQueryEx(addr: nat, now: nat, fetched: seq<DriverRegion>, after: nat) returns (found: Option<Answer>)
      requires now < U64 && nLastGetMapsTime < U64
      modifies this
      ensures var call := Ask(addr, now, fetched, after);
        State() == After(old(State()), call) && found == Reply(old(State()), call)
    {
      if (now - nLastGetMapsTime) % U64 > 1000 * 60 {
        vLastMaps := fetched;
        if vLastMaps == [] {
          nLastGetMapsTime := 0;
          return None;
        }
        nLastGetMapsTime := after;
      }
      found := Query(vLastMaps, addr);
    }

    method VirtualQueryExFull(
      noShared: bool, fetched: seq<DriverRegion>, now: nat)
      returns (ok: bool, out: seq<DriverRegion>)
      modifies this
      ensures State() == After(old(State()), List(noShared, fetched, now))
      ensures ok <==> fetched != []
      ensures out == ListFrom(fetched, |fetched|, noShared)
    {
      out := [];
      vLastMaps := fetched;
      if vLastMaps == [] {
        nLastGetMapsTime := 0;
        return false, [];
      }
      nLastGetMapsTime := now;
      for i := 0 to |vLastMaps|
        invariant vLastMaps == fetched && out == ListFrom(fetched, i, noShared)
      {
        var r := vLastMaps[i];
        if r.protection != PAGE_NOACCESS && !(r.kind == MEM_MAPPED && noShared) {
          out := out + [r];
        }
      }
      ok := true;
    }
  }

  // ---------------------------------------------------------------------------------------------
  // Sequences of calls
  // ---------------------------------------------------------------------------------------------

  function CacheAfter(calls: seq<Call>, n: nat): Cache
    requires n <= |calls|
  {
    if n == 0 then Start() else After(CacheAfter(calls, n - 1), calls[n - 1])
  }

  /** Call j asked the driver. */
  predicate FetchedAt(calls: seq<Call>, j: nat)
    requires j < |calls|
  {
    Fetches(CacheAfter(calls, j), calls[j])
  }

  function FirstReading(call: Call): nat {
    if call.Ask? then call.now else call.after
  }

  /** The clock never goes back, within a call or between calls, and stays below 2^64 milliseconds. */
  ghost predicate Monotonic(calls: seq<Call>) {
    && (forall i :: 0 <= i < |calls| ==> FirstReading(calls[i]) <= calls[i].after < U64)
    && (forall i, j :: 0 <= i < j < |calls| ==> calls[i].after <= FirstReading(calls[j]))
  }

  /** The list in the cache is that of call j, stamped when j had fetched it, and not fetched again before n. */
  ghost predicate ComesFrom(calls: seq<Call>, n: nat, j: nat)
    requires n <= |calls|
  {
    && j < n && FetchedAt(calls, j)
    && CacheAfter(calls, n) == Cache(calls[j].fetched, calls[j].after)
    && forall i :: j < i < n ==> !FetchedAt(calls, i)
  }

  /** A non-empty cached list comes from the last fetch. */
  lemma {:induction false} CacheComesFrom(calls: seq<Call>, n: nat) returns (j: nat)
    requires n <= |calls| && CacheAfter(calls, n).maps != []
    ensures ComesFrom(calls, n, j)
  {
    if FetchedAt(calls, n - 1) {
      j := n - 1;
    } else {
      j := CacheComesFrom(calls, n - 1);
    }
  }

  /** The list that call n answers from was fetched by call j. */
  ghost predicate AnswersFrom(calls: seq<Call>, n: nat, j: nat)
    requires n < |calls| && calls[n].Ask?
  {
    && j <= n && FetchedAt(calls, j)
    && Reply(CacheAfter(calls, n), calls[n]) == QueryAt(calls[j].fetched, calls[n].addr)
  }

  /**
   Every found answer comes from the list that an earlier call fetched at most 60 seconds before, or from
   the list this call has fetched itself.
   */
  lemma {:induction false} AnswersAreFresh(calls: seq<Call>, n: nat) returns (j: nat)
    requires Monotonic(calls) && n < |calls| && calls[n].Ask?
    requires Reply(CacheAfter(calls, n), calls[n]).Some?
    ensures AnswersFrom(calls, n, j)
    ensures j == n || calls[j].after <= calls[n].now <= calls[j].after + MAX_AGE
  {
    var c := CacheAfter(calls, n);
    if FetchedAt(calls, n) {
      j := n;
    } else {
      assert c.maps != [];
      j := CacheComesFrom(calls, n);
      assert calls[j].after <= FirstReading(calls[n]);
      assert (calls[n].now - c.stamp) % U64 == calls[n].now - c.stamp;
    }
  }

  /** What is listed is an accessible region of the map, and not a mapped one if these are filtered. */
  lemma {:induction false} ListedRegion(maps: seq<DriverRegion>, n: nat, noShared: bool, r: DriverRegion)
    requires n <= |maps| && r in ListFrom(maps, n, noShared)
    ensures exists k :: 0 <= k < n && maps[k] == r
    ensures r.protection != 1 && !(noShared && r.kind == 0x40000)
  {
    if r in ListFrom(maps, n - 1, noShared) {
      ListedRegion(maps, n - 1, noShared, r);
    }
  }

  /** Every accessible region that is not filtered is listed. */
  lemma {:induction false} RegionIsListed(maps: seq<DriverRegion>, n: nat, noShared: bool, k: nat)
    requires k < n <= |maps| && maps[k].protection != 1 && !(noShared && maps[k].kind == 0x40000)
    ensures maps[k] in ListFrom(maps, n, noShared)
  {
    if k < n - 1 {
      RegionIsListed(maps, n - 1, noShared, k);
    }
  }

  /** The listing of a sorted map is sorted, so it has the regions in order and once. */
  lemma {:induction false} ListingIsSorted(maps: seq<DriverRegion>, n: nat, noShared: bool)
    requires Sorted(maps) && n <= |maps|
    ensures Sorted(ListFrom(maps, n, noShared))
    ensures forall r :: r in ListFrom(maps, n, noShared) ==> r.base + r.size <= PrevEnd(maps, n)
  {
    if n > 0 {
      ListingIsSorted(maps, n - 1, noShared);
      PrevEndsAscend(maps, n);
    }
  }

  lemma PrevEndsAscend(maps: seq<DriverRegion>, n: nat)
    requires Sorted(maps) && 0 < n <= |maps|
    ensures PrevEnd(maps, n - 1) <= maps[n - 1].base <= PrevEnd(maps, n)
  {
  }

  lemma {:induction false} CacheIsKept(calls: seq<Call>, j: nat, n: nat)
    requires j < n <= |calls| && FetchedAt(calls, j) && calls[j].fetched != []
    requires forall i :: j < i < n ==> !FetchedAt(calls, i)
    ensures CacheAfter(calls, n) == Cache(calls[j].fetched, calls[j].after)
  {
    if j < n - 1 {
      CacheIsKept(calls, j, n - 1);
      assert !FetchedAt(calls, n - 1);
    }
  }

  /**
   Under a monotonic clock a query asks the driver again exactly when the kept list is older than 60 seconds: the
   list fetched by call j serves all queries up to then.
   */
  lemma RefetchedIff(calls: seq<Call>, j: nat, n: nat)
    requires Monotonic(calls) && j < n < |calls| && calls[n].Ask?
    requires FetchedAt(calls, j) && calls[j].fetched != [] && forall i :: j < i < n ==> !FetchedAt(calls, i)
    ensures FetchedAt(calls, n) <==> calls[n].now > calls[j].after + 60000
  {
    CacheIsKept(calls, j, n);
    assert calls[j].after <= FirstReading(calls[n]);
    assert (calls[n].now - calls[j].after) % U64 == calls[n].now - calls[j].after;
  }

  /** No list is kept before the first fetch, and after one that has failed. */
  ghost predicate NothingKept(calls: seq<Call>, n: nat)
    requires n <= |calls|
  {
    n == 0 || (FetchedAt(calls, n - 1) && calls[n - 1].fetched == [])
  }

  /**
   Then a query asks the driver in any case, once the clock has passed its first minute; in that minute it finds
   nothing without asking.
   */
  lemma FailedFetchIsNotKept(calls: seq<Call>, n: nat)
    requires Monotonic(calls) && n < |calls| && calls[n].Ask? && NothingKept(calls, n)
    ensures FetchedAt(calls, n) <==> calls[n].now > 60000
    ensures !FetchedAt(calls, n) || calls[n].fetched == [] ==> Reply(CacheAfter(calls, n), calls[n]) == None
    ensures FetchedAt(calls, n) && calls[n].fetched != [] ==>
      Reply(CacheAfter(calls, n), calls[n]) == QueryAt(calls[n].fetched, calls[n].addr)
  {
    assert CacheAfter(calls, n) == Cache([], 0);
    assert FirstReading(calls[n]) <= calls[n].after < U64;
    AskOfEmpty(calls[n]);
  }

  lemma AskOfEmpty(call: Call)
    requires call.Ask? && call.now < U64
    ensures var c := Cache([], 0);
      && (Fetches(c, call) <==> call.now > 60000)
      && (!Fetches(c, call) || call.fetched == [] ==> Reply(c, call) == None)
      && (Fetches(c, call) && call.fetched != [] ==> Reply(c, call) == QueryAt(call.fetched, call.addr))
  {
    assert call.now % U64 == call.now;
  }

  /** A listing always asks the driver. */
  lemma ListingAsks(calls: seq<Call>, n: nat)
    requires n < |calls| && calls[n].List?
    ensures FetchedAt(calls, n)
  {
  }

  lemma ReplyOfKept(c: Cache, call: Call)
    requires call.Ask? && !Fetches(c, call)
    ensures Reply(c, call) == QueryAt(c.maps, call.addr)
  {
  }

  /**
   While the snapshot of a full listing is kept, every address in a listed region is answered with the
   protection and type of that region, up to its end.
   */
  lemma ListingAgreesWithQueries(calls: seq<Call>, j: nat, n: nat, r: DriverRegion)
    requires j < n < |calls| && calls[j].List? && calls[n].Ask?
    requires Sorted(calls[j].fetched) && r in ListFrom(calls[j].fetched, |calls[j].fetched|, calls[j].noShared)
    requires forall i :: j < i <= n ==> !FetchedAt(calls, i)
    requires r.base <= calls[n].addr < r.base + r.size
    ensures var x := Reply(CacheAfter(calls, n), calls[n]);
      x.Some? && x.value.protection == r.protection && x.value.kind == r.kind
      && x.value.base == PageOf(calls[n].addr) && x.value.base + x.value.size == r.base + r.size
  {
    var maps := calls[j].fetched;
    ListedRegion(maps, |maps|, calls[j].noShared, r);
    var k :| 0 <= k < |maps| && maps[k] == r;
    CacheIsKept(calls, j, n);
    assert !FetchedAt(calls, n);
    ReplyOfKept(CacheAfter(calls, n), calls[n]);
    InsideRegion(maps, k, calls[n].addr);
  }
}
