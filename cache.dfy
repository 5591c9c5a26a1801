/**
 The process-wide cache: `getCachedData` serves the held snapshot while it
 is fresh and otherwise refreshes; `refreshCache` replaces the whole entry
 with the snapshot of a new round of lookups. Time is an integer count of
 nanoseconds supplied by the caller, one reading per operation. The locks
 around these operations are not modelled: each operation runs to
 completion before the next.
 */
module CacheStore {
  import opened PkgTypes
  import opened Registry
  import opened Refresh

  /** The read fast path applies: the clock is before the expiry and some data is held. */
  predicate IsFresh(e: CacheEntry, now: int) {
    now < e.expiresAt && e.data.Some?
  }

  /**
   The entry a refresh at `now` installs, whatever was held before: the
   in-order survivors of the slots, nil exactly when there are none, stamped
   `now` and valid for exactly 24 hours.
   */
  function Refreshed(pkgs: seq<string>, resps: seq<Response>, now: int): (e: CacheEntry)
    requires |resps| == |pkgs|
    ensures e.data.None? <==> Survivors(Slots(pkgs, resps)) == []
    ensures Elements(e.data) == Survivors(Slots(pkgs, resps))
    ensures e.lastUpdated == now && e.expiresAt == e.lastUpdated + DayNs
  {
    CacheEntry(Gathered(pkgs, resps), now + DayNs, now)
  }

  /** What one read returns, and the entry it leaves behind. */
  datatype ReadResult = ReadResult(entry: CacheEntry, served: Option<seq<PackageInfo>>)

  /** One `getCachedData` call at time `now`; `resps` is what a refresh would see. */
  function ReadStep(e: CacheEntry, pkgs: seq<string>, resps: seq<Response>, now: int): (r: ReadResult)
    requires |resps| == |pkgs|
    ensures IsFresh(e, now) ==> r == ReadResult(e, e.data)
    ensures !IsFresh(e, now) ==> r.entry == Refreshed(pkgs, resps, now) && r.served == Gathered(pkgs, resps)
  {
    if IsFresh(e, now) then ReadResult(e, e.data)
    else
      var e' := Refreshed(pkgs, resps, now);
      ReadResult(e', e'.data)
  }

  /** The shared cache, owned by one object instead of a global variable. */
  class Store {
    const packages: seq<string>
    var entry: CacheEntry

    /** The process starts with Go's zero value: no data, expired. */
    constructor (packages: seq<string>)
      ensures this.packages == packages && entry == EmptyEntry
    {
      this.packages := packages;
      entry := EmptyEntry;
    }

    /**
     `refreshCache`: run every lookup, then replace data, expiry and
     last-update time together, even when no record survived.
     */
    method Refresh(now: int, resps: seq<Response>) returns (filtered: Option<seq<PackageInfo>>)
      requires |resps| == |packages|
      modifies this`entry
      ensures entry.data == AsSlice(Survivors(Slots(packages, resps)))
      ensures entry.expiresAt == now + DayNs && entry.lastUpdated == now
      ensures filtered == entry.data
    {
      filtered := Gather(packages, resps);
      entry := CacheEntry(filtered, now + DayNs, now);
    }

    /**
     `getCachedData`: serve the held data while fresh, leaving the cache as
     it is; otherwise refresh and serve what the refresh produced.
     */
    method Read(now: int, resps: seq<Response>) returns (data: Option<seq<PackageInfo>>)
      requires |resps| == |packages|
      modifies this`entry
      ensures IsFresh(old(entry), now) ==> entry == old(entry) && data == old(entry).data
      ensures !IsFresh(old(entry), now) ==> entry == Refreshed(packages, resps, now) && data == entry.data
      ensures ReadStep(old(entry), packages, resps, now) == ReadResult(entry, data)
    {
      if now < entry.expiresAt && entry.data.Some? {
        data := entry.data;
        return;
      }
      data := Refresh(now, resps);
    }
  }

  // ---------------------------------------------------------------------
  // Properties of the state machine

  /** The fast path holds one nanosecond before the expiry and at no point from the expiry on. */
  lemma FreshnessBoundary(e: CacheEntry, now: int)
    requires e.data.Some?
    ensures IsFresh(e, e.expiresAt - 1)
    ensures now >= e.expiresAt ==> !IsFresh(e, now)
  {
  }

  /**
   After a refresh at `t` in which some record survived, every read before
   `t + 24h` is served that snapshot from the cache and changes nothing,
   whatever its lookups would have returned.
   */
  lemma ServedWithinWindow(pkgs: seq<string>, resps: seq<Response>, t: int, resps': seq<Response>, now: int)
    requires |resps| == |pkgs| && |resps'| == |pkgs|
    requires Survivors(Slots(pkgs, resps)) != []
    requires now < t + DayNs
    ensures ReadStep(Refreshed(pkgs, resps, t), pkgs, resps', now)
         == ReadResult(Refreshed(pkgs, resps, t), Some(Survivors(Slots(pkgs, resps))))
  {
  }

  /**
   After a refresh in which every slot came back empty the data is nil, so
   every later read refreshes again, whatever the expiry says.
   */
  lemma EmptyRefreshNeverServes(pkgs: seq<string>, resps: seq<Response>, t: int, resps': seq<Response>, now: int)
    requires |resps| == |pkgs| && |resps'| == |pkgs|
    requires Survivors(Slots(pkgs, resps)) == []
    ensures Refreshed(pkgs, resps, t).data.None?
    ensures ReadStep(Refreshed(pkgs, resps, t), pkgs, resps', now).entry == Refreshed(pkgs, resps', now)
  {
  }

  /** One read call: the clock reading and what its lookups would return. */
  datatype ReadCall = ReadCall(now: int, resps: seq<Response>)

  predicate WellFormedCalls(pkgs: seq<string>, calls: seq<ReadCall>) {
    forall k :: 0 <= k < |calls| ==> |calls[k].resps| == |pkgs|
  }

  /** The outcome of several reads in a row: final entry, what each read served, how many refreshed. */
  datatype ReadsOutcome = ReadsOutcome(entry: CacheEntry, served: seq<Option<seq<PackageInfo>>>, refreshes: nat)

  function ReadMany(e: CacheEntry, pkgs: seq<string>, calls: seq<ReadCall>): ReadsOutcome
    requires WellFormedCalls(pkgs, calls)
    decreases |calls|
  {
    if calls == [] then ReadsOutcome(e, [], 0)
    else
      var r := ReadStep(e, pkgs, calls[0].resps, calls[0].now);
      var rest := ReadMany(r.entry, pkgs, calls[1..]);
      ReadsOutcome(rest.entry, [r.served] + rest.served,
                   rest.refreshes + if IsFresh(e, calls[0].now) then 0 else 1)
  }

  /**
   Reads that all fall in the freshness window of the held entry each serve
   the same snapshot, trigger no lookup, and leave the entry unchanged.
   */
  lemma {:induction false} ReadsWithinWindow(e: CacheEntry, pkgs: seq<string>, calls: seq<ReadCall>)
    requires WellFormedCalls(pkgs, calls)
    requires e.data.Some?
    requires forall k :: 0 <= k < |calls| ==> calls[k].now < e.expiresAt
    ensures ReadMany(e, pkgs, calls) == ReadsOutcome(e, seq(|calls|, _ => e.data), 0)
  {
    if calls != [] {
      ReadsWithinWindow(e, pkgs, calls[1..]);
      assert seq(|calls|, _ => e.data) == [e.data] + seq(|calls| - 1, _ => e.data);
    }
  }

  /**
   Reads issued in clock order within 24 hours of the first one trigger at
   most one round of lookups, provided any refresh among them keeps at
   least one record.
   */
  lemma {:induction false} AtMostOneRefresh(e: CacheEntry, pkgs: seq<string>, calls: seq<ReadCall>)
    requires WellFormedCalls(pkgs, calls)
    requires |calls| > 0
    requires forall k, l :: 0 <= k < l < |calls| ==> calls[k].now <= calls[l].now
    requires forall k :: 0 <= k < |calls| ==> calls[k].now < calls[0].now + DayNs
    requires forall k :: 0 <= k < |calls| ==> Survivors(Slots(pkgs, calls[k].resps)) != []
    ensures ReadMany(e, pkgs, calls).refreshes <= 1
  {
    var r := ReadStep(e, pkgs, calls[0].resps, calls[0].now);
    var rest := calls[1..];
    if IsFresh(e, calls[0].now) {
      if rest != [] {
        AtMostOneRefresh(e, pkgs, rest);
      }
    } else {
      ReadsWithinWindow(r.entry, pkgs, rest);
    }
  }
}
