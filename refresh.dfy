/**
 The collection step of `refreshCache`: one lookup per configured
 identifier writes its record into the slot of the same index, and the
 slots whose record has a non-empty name are then gathered, in index order,
 into the new snapshot. The concurrent lookups are run one after another
 here; since each writes only its own slot, the order of completion does
 not matter.
 */
module Refresh {
  import opened PkgTypes
  import opened Registry
  import SpecParser

  /**
   The content of slot i after lookup i: the lookup's own record, or the
   zero value on failure. A named slot always comes from a decoded response
   and carries the parsed package name.
   */
  function Slot(pkg: string, resp: Response): (r: PackageInfo)
    ensures FetchVersion(pkg, resp).Ok? ==> r == FetchVersion(pkg, resp).value
    ensures FetchVersion(pkg, resp).Err? ==> r == ZeroInfo
    ensures r == ZeroInfo || FetchVersion(pkg, resp) == Ok(r)
    ensures r.name != "" ==> resp.Decoded? && HasVersion(resp.raw) && r.name == SpecParser.Parse(pkg).name
  {
    match FetchVersion(pkg, resp)
    case Ok(info) => info
    case Err(_) => ZeroInfo
  }

  /**
   All slots after every lookup has finished: one per identifier, each
   depending only on its own lookup.
   */
  function Slots(pkgs: seq<string>, resps: seq<Response>): (s: seq<PackageInfo>)
    requires |resps| == |pkgs|
    ensures |s| == |pkgs|
    ensures forall i :: 0 <= i < |s| && FetchVersion(pkgs[i], resps[i]).Ok? ==> s[i] == FetchVersion(pkgs[i], resps[i]).value
    ensures forall i :: 0 <= i < |s| && FetchVersion(pkgs[i], resps[i]).Err? ==> s[i] == ZeroInfo
    ensures forall i :: 0 <= i < |s| && s[i].name != "" ==>
      resps[i].Decoded? && s[i].name == SpecParser.Parse(pkgs[i]).name
  {
    seq(|pkgs|, i requires 0 <= i < |pkgs| => Slot(pkgs[i], resps[i]))
  }

  /** One slot's contribution to the snapshot: itself when its name is not empty. */
  function Keep(x: PackageInfo): seq<PackageInfo> {
    if x.name != "" then [x] else []
  }

  /** The slots whose name is not empty, in index order: never more than the slots. */
  function Survivors(s: seq<PackageInfo>): (r: seq<PackageInfo>)
    ensures |r| <= |s|
  {
    if s == [] then []
    else Survivors(s[..|s| - 1]) + Keep(s[|s| - 1])
  }

  /** Go's slice as grown by `append` from nil: nil (None) exactly when empty. */
  function AsSlice(s: seq<PackageInfo>): (o: Option<seq<PackageInfo>>)
    ensures o.None? <==> s == []
    ensures o.Some? ==> o.value == s
  {
    if s == [] then None else Some(s)
  }

  /** The elements of a slice; nil has none. */
  function Elements(o: Option<seq<PackageInfo>>): seq<PackageInfo> {
    match o
    case None => []
    case Some(s) => s
  }

  /** The snapshot one refresh produces from the lookups' outcomes. */
  function Gathered(pkgs: seq<string>, resps: seq<Response>): Option<seq<PackageInfo>>
    requires |resps| == |pkgs|
  {
    AsSlice(Survivors(Slots(pkgs, resps)))
  }

  /**
   The fan-out into a slot array followed by the in-order filter. The
   result is nil when no slot survived.
   */
  method Gather(pkgs: seq<string>, resps: seq<Response>) returns (filtered: Option<seq<PackageInfo>>)
    requires |resps| == |pkgs|
    ensures filtered.None? <==> Survivors(Slots(pkgs, resps)) == []
    ensures Elements(filtered) == Survivors(Slots(pkgs, resps))
  {
    var results := FillSlots(pkgs, resps);
    filtered := Filter(results);
  }

  /**
   One lookup per identifier; a successful one writes its record into the
   slot of its own index, a failed one leaves that slot at the zero value.
   */
  method FillSlots(pkgs: seq<string>, resps: seq<Response>) returns (results: array<PackageInfo>)
    requires |resps| == |pkgs|
    ensures fresh(results)
    ensures results[..] == Slots(pkgs, resps)
  {
    var n := |pkgs|;
    results := new PackageInfo[n](_ => ZeroInfo);
    for i := 0 to n
      invariant results[..i] == Slots(pkgs, resps)[..i]
      invariant forall j :: i <= j < n ==> results[j] == ZeroInfo
    {
      var r := FetchVersion(pkgs[i], resps[i]);
      match r
      case Ok(info) => results[i] := info;
      case Err(_) =>
    }
    assert results[..] == results[..n];
  }

  /** Append, in index order, every slot whose name is not empty to a slice that starts nil. */
  method Filter(results: array<PackageInfo>) returns (filtered: Option<seq<PackageInfo>>)
    ensures filtered == AsSlice(Survivors(results[..]))
  {
    filtered := None;
    for i := 0 to results.Length
      invariant filtered == AsSlice(Survivors(results[..i]))
    {
      SurvivorsStep(results[..], i);
      AppendStep(filtered, Survivors(results[..i]), results[i]);
      if results[i].name != "" {
        filtered := Some(Elements(filtered) + [results[i]]);
      }
    }
    assert results[..results.Length] == results[..];
  }

  /** Appending a slot that survives to the slice, or leaving the slice alone, follows the filter. */
  lemma AppendStep(filtered: Option<seq<PackageInfo>>, kept: seq<PackageInfo>, x: PackageInfo)
    requires filtered == AsSlice(kept)
    ensures x.name != "" ==> Some(Elements(filtered) + [x]) == AsSlice(kept + Keep(x))
    ensures x.name == "" ==> filtered == AsSlice(kept + Keep(x))
  {
    assert kept + [] == kept;
  }

  /** The filter over one more slot. */
  lemma SurvivorsStep(s: seq<PackageInfo>, i: nat)
    requires i < |s|
    ensures Survivors(s[..i + 1]) == Survivors(s[..i]) + Keep(s[i])
  {
    var upto := s[..i + 1];
    assert upto[..i] == s[..i] && upto[i] == s[i];
  }

  // ---------------------------------------------------------------------
  // The filter is the in-order subsequence of non-empty slots

  lemma {:induction false} SurvivorsConcat(a: seq<PackageInfo>, b: seq<PackageInfo>)
    ensures Survivors(a + b) == Survivors(a) + Survivors(b)
  {
    if b == [] {
      assert a + b == a;
    } else {
      ConcatInit(a, b);
      SurvivorsConcat(a, b[..|b| - 1]);
    }
  }

  /** The last element and the rest of a concatenation with a non-empty right part. */
  lemma ConcatInit(a: seq<PackageInfo>, b: seq<PackageInfo>)
    requires b != []
    ensures (a + b)[..|a + b| - 1] == a + b[..|b| - 1] && (a + b)[|a + b| - 1] == b[|b| - 1]
  {
  }

  /** Every record of the snapshot has a name and is one of the slots. */
  lemma {:induction false} SurvivorsFromSlots(s: seq<PackageInfo>)
    ensures forall k :: 0 <= k < |Survivors(s)| ==> Survivors(s)[k].name != ""
    ensures forall k :: 0 <= k < |Survivors(s)| ==> Survivors(s)[k] in s
  {
    if s != [] {
      SurvivorsFromSlots(s[..|s| - 1]);
      var init := s[..|s| - 1];
      forall k | 0 <= k < |Survivors(init)| ensures Survivors(init)[k] in s {
        assert Survivors(init)[k] in init;
      }
    }
  }

  /** The indices of the surviving slots, in increasing order. */
  function Kept(s: seq<PackageInfo>): seq<nat> {
    if s == [] then []
    else Kept(s[..|s| - 1]) + KeepIndex(s[|s| - 1], |s| - 1)
  }

  /** Slot i's contribution to Kept: its index when its name is not empty. */
  function KeepIndex(x: PackageInfo, i: nat): seq<nat> {
    if x.name != "" then [i] else []
  }

  lemma {:induction false} KeptLength(s: seq<PackageInfo>)
    ensures |Kept(s)| == |Survivors(s)|
  {
    if s != [] {
      KeptLength(s[..|s| - 1]);
    }
  }

  lemma {:induction false} KeptPicks(s: seq<PackageInfo>)
    requires |Kept(s)| == |Survivors(s)|
    ensures forall k :: 0 <= k < |Kept(s)| ==> Kept(s)[k] < |s| && Survivors(s)[k] == s[Kept(s)[k]]
  {
    if s != [] {
      var init := s[..|s| - 1];
      KeptLength(init);
      KeptPicks(init);
    }
  }

  lemma {:induction false} KeptIncreasing(s: seq<PackageInfo>)
    ensures forall k :: 0 <= k < |Kept(s)| ==> Kept(s)[k] < |s|
    ensures forall k, l :: 0 <= k < l < |Kept(s)| ==> Kept(s)[k] < Kept(s)[l]
  {
    if s != [] {
      KeptIncreasing(s[..|s| - 1]);
    }
  }

  lemma {:induction false} KeptExactly(s: seq<PackageInfo>)
    ensures forall i :: 0 <= i < |s| ==> (i in Kept(s) <==> s[i].name != "")
  {
    if s != [] {
      var init := s[..|s| - 1];
      KeptExactly(init);
      KeptIncreasing(init);
      forall i | 0 <= i < |s| ensures i in Kept(s) <==> s[i].name != "" {
        if i < |s| - 1 {
          assert s[i] == init[i];
        }
      }
    }
  }

  /**
   The snapshot is exactly the subsequence of the slots at the indices in
   Kept: those indices increase, and they are precisely the slots whose
   name is not empty.
   */
  lemma {:induction false} SurvivorsAreSubsequence(s: seq<PackageInfo>)
    ensures |Kept(s)| == |Survivors(s)|
    ensures forall k :: 0 <= k < |Kept(s)| ==> Kept(s)[k] < |s| && Survivors(s)[k] == s[Kept(s)[k]]
    ensures forall k, l :: 0 <= k < l < |Kept(s)| ==> Kept(s)[k] < Kept(s)[l]
    ensures forall i :: 0 <= i < |s| ==> (i in Kept(s) <==> s[i].name != "")
  {
    KeptLength(s);
    KeptPicks(s);
    KeptIncreasing(s);
    KeptExactly(s);
  }

  /** Where slot i lands in the snapshot: the number of survivors before it. */
  function Rank(s: seq<PackageInfo>, i: nat): nat
    requires i <= |s|
  {
    |Survivors(s[..i])|
  }

  /** The filter keeps a single slot exactly when its name is not empty. */
  lemma SurvivorsSingle(x: PackageInfo)
    ensures Survivors([x]) == Keep(x)
  {
    assert [x][..0] == [];
  }

  /** The filter around one slot: the survivors before it, then it if it survives, then those after. */
  lemma SurvivorsSplitAt(s: seq<PackageInfo>, m: nat)
    requires m < |s|
    ensures Survivors(s) == Survivors(s[..m]) + Keep(s[m]) + Survivors(s[m + 1..])
  {
    CutAt(s, m);
    SurvivorsConcat(s[..m + 1], s[m + 1..]);
    SurvivorsConcat(s[..m], [s[m]]);
    SurvivorsSingle(s[m]);
  }

  /** A sequence around position m. */
  lemma CutAt(s: seq<PackageInfo>, m: nat)
    requires m < |s|
    ensures s[..m + 1] == s[..m] + [s[m]] && s == s[..m + 1] + s[m + 1..]
  {
  }

  /** A surviving slot m is the record at position Rank(s, m) of the snapshot. */
  lemma RankLocates(s: seq<PackageInfo>, m: nat)
    requires m < |s| && s[m].name != ""
    ensures Rank(s, m) < |Survivors(s)| && Survivors(s)[Rank(s, m)] == s[m]
  {
    SurvivorsSplitAt(s, m);
  }

  /**
   A surviving slot i comes strictly before any later surviving slot j in
   the snapshot, each at its rank.
   */
  lemma OrderPreserved(s: seq<PackageInfo>, i: nat, j: nat)
    requires i < j < |s| && s[i].name != "" && s[j].name != ""
    ensures Rank(s, i) < Rank(s, j) < |Survivors(s)|
    ensures Survivors(s)[Rank(s, i)] == s[i] && Survivors(s)[Rank(s, j)] == s[j]
  {
    RankLocates(s, i);
    RankLocates(s, j);
    var prefix := s[..j];
    assert prefix[..i] == s[..i] && prefix[i] == s[i];
    SurvivorsSplitAt(prefix, i);
    assert |Survivors(prefix)| >= |Survivors(s[..i])| + 1;
  }

  /** Two sequences that agree except at position i agree on both sides of it. */
  lemma SameOutside(s: seq<PackageInfo>, t: seq<PackageInfo>, i: nat)
    requires |s| == |t| && i < |s|
    requires forall j :: 0 <= j < |s| && j != i ==> s[j] == t[j]
    ensures s[..i] == t[..i] && s[i + 1..] == t[i + 1..]
  {
    assert s[..i] == t[..i];
    assert forall j :: i + 1 <= j < |s| ==> s[j] == t[j];
  }

  /** Zeroing one slot removes exactly that slot's contribution to the snapshot. */
  lemma SurvivorsWithoutSlot(s: seq<PackageInfo>, t: seq<PackageInfo>, i: nat)
    requires |s| == |t| && i < |s| && s[i] == ZeroInfo
    requires forall j :: 0 <= j < |s| && j != i ==> s[j] == t[j]
    ensures Survivors(s) == Survivors(t[..i]) + Survivors(t[i + 1..])
  {
    SameOutside(s, t, i);
    SurvivorsSplitAt(s, i);
    assert Keep(s[i]) == [];
  }

  /**
   A failed lookup, whichever way it failed, leaves its slot at the zero
   value, leaves every other slot as it was, and the snapshot is then the
   survivors on either side of it.
   */
  lemma FailureOmitted(pkgs: seq<string>, resps: seq<Response>, i: nat, r: Response)
    requires |resps| == |pkgs| && i < |pkgs|
    requires FetchVersion(pkgs[i], r).Err?
    ensures var s := Slots(pkgs, resps[i := r]);
      s[i] == ZeroInfo
      && (forall j :: 0 <= j < |pkgs| && j != i ==> s[j] == Slots(pkgs, resps)[j])
      && Survivors(s) == Survivors(Slots(pkgs, resps)[..i]) + Survivors(Slots(pkgs, resps)[i + 1..])
  {
    var s, t := Slots(pkgs, resps[i := r]), Slots(pkgs, resps);
    assert s[i] == Slot(pkgs[i], r) == ZeroInfo;
    forall j | 0 <= j < |pkgs| && j != i ensures s[j] == t[j] {
      assert resps[i := r][j] == resps[j];
    }
    SurvivorsWithoutSlot(s, t, i);
  }

  /**
   With three identifiers where the middle lookup fails and the others
   deliver records with non-empty names, the snapshot is the first record
   followed by the third.
   */
  lemma MiddleFailureDropped(pkgs: seq<string>, ra: Response, rc: Response)
    requires |pkgs| == 3
    requires Slot(pkgs[0], ra).name != "" && Slot(pkgs[2], rc).name != ""
    ensures Gathered(pkgs, [ra, Failed, rc]) == Some([Slot(pkgs[0], ra), Slot(pkgs[2], rc)])
  {
    var s := Slots(pkgs, [ra, Failed, rc]);
    assert s[1] == ZeroInfo;
    assert s[..1][..0] == [];
    assert Survivors(s[..1]) == [s[0]];
    assert s[..2][..1] == s[..1];
    assert Survivors(s[..2]) == [s[0]];
    assert s[..2] == s[..|s| - 1];
    assert Survivors(s) == [s[0], s[2]];
  }
}
