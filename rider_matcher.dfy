/** The rider matcher of parser.js (`findRidersByNames`): each target name
    picks the first roster entry whose cleaned name contains it or is
    contained in it. */
module RiderMatcher {
  import opened Wrappers
  import opened Strings
  import opened TextNormalizers

  /** One entry of the roster's `riderData` array. */
  datatype RosterEntry = RosterEntry(riderID: int, riderName: string)

  /** One element of `foundRiders`. */
  datatype MatchedRider = MatchedRider(riderID: int, riderName: string, originalName: string)

  /** The test of the `find` callback: containment in either direction. */
  predicate NamesRelated(cleanName: string, targetName: string)
  {
    Contains(cleanName, targetName) || Contains(targetName, cleanName)
  }

  /** The roster entry `e` is related to the target after cleaning its name. */
  predicate EntryMatches(e: RosterEntry, targetName: string)
  {
    NamesRelated(ExtractRiderName(e.riderName), targetName)
  }

  /** `riderData.riderData.find(...)` from index `from`: the index of the
      first entry that matches `targetName`. */
  function FindInRoster(roster: seq<RosterEntry>, targetName: string, from: nat): (f: Option<nat>)
    requires from <= |roster|
    ensures f.Some? ==> from <= f.value < |roster| && EntryMatches(roster[f.value], targetName)
    ensures f.Some? ==> forall k :: from <= k < f.value ==> !EntryMatches(roster[k], targetName)
    ensures f.None? ==> forall k :: from <= k < |roster| ==> !EntryMatches(roster[k], targetName)
    decreases |roster| - from
  {
    if from == |roster| then None
    else if EntryMatches(roster[from], targetName) then Some(from)
    else FindInRoster(roster, targetName, from + 1)
  }

  /** The element pushed for `targetName` when it matched roster entry `e`. */
  function MatchedFor(e: RosterEntry, targetName: string): MatchedRider
  {
    MatchedRider(e.riderID, ExtractRiderName(e.riderName), targetName)
  }

  /** The rider that the loop pushes for `targetName`, if any. */
  function Resolve(roster: seq<RosterEntry>, targetName: string): Option<MatchedRider>
  {
    match FindInRoster(roster, targetName, 0)
    case Some(j) => Some(MatchedFor(roster[j], targetName))
    case None => None
  }

  /** A target resolves exactly when some roster entry matches it, and then to
      the ID and cleaned name of the first such entry, with the target kept as
      `originalName`. */
  lemma ResolveSpec(roster: seq<RosterEntry>, targetName: string)
    ensures Resolve(roster, targetName).None? <==>
      forall k :: 0 <= k < |roster| ==> !EntryMatches(roster[k], targetName)
    ensures Resolve(roster, targetName).Some? ==>
      exists j :: (0 <= j < |roster| && EntryMatches(roster[j], targetName)
        && (forall k :: 0 <= k < j ==> !EntryMatches(roster[k], targetName))
        && Resolve(roster, targetName).value
           == MatchedRider(roster[j].riderID, ExtractRiderName(roster[j].riderName), targetName))
  {
    var f := FindInRoster(roster, targetName, 0);
    if f.Some? {
      assert EntryMatches(roster[f.value], targetName);
    }
  }

  /** What one iteration of the loop over target names pushes. */
  function MatchOne(roster: seq<RosterEntry>, targetName: string): seq<MatchedRider>
  {
    match Resolve(roster, targetName)
    case Some(m) => [m]
    case None => []
  }

  /** `foundRiders` after the loop has visited `targetNames`. */
  function Matches(roster: seq<RosterEntry>, targetNames: seq<string>): seq<MatchedRider>
  {
    if targetNames == [] then []
    else
      Matches(roster, targetNames[..|targetNames| - 1]) + MatchOne(roster, targetNames[|targetNames| - 1])
  }

  /** parser.js `findRidersByNames`; `riderData` is `None` when the roster
      payload is missing, has no `riderData` or its `riderData` is not an array. */
  method FindRidersByNames(riderData: Option<seq<RosterEntry>>, targetNames: seq<string>)
    returns (foundRiders: seq<MatchedRider>)
    ensures riderData.None? ==> foundRiders == []
    ensures riderData.Some? ==> foundRiders == Matches(riderData.value, targetNames)
  {
    foundRiders := [];
    if riderData.None? {
      return;
    }
    var roster := riderData.value;
    for i := 0 to |targetNames|
      invariant foundRiders == Matches(roster, targetNames[..i])
    {
      assert targetNames[..i + 1][..i] == targetNames[..i];
      var targetName := targetNames[i];
      var rider := FindInRoster(roster, targetName, 0);
      if rider.Some? {
        foundRiders := foundRiders + [MatchedFor(roster[rider.value], targetName)];
      }
    }
    assert targetNames[..|targetNames|] == targetNames;
  }

  /** The present values of `rs`, in order. */
  function Kept<X>(rs: seq<Option<X>>): seq<X>
  {
    if rs == [] then []
    else
      var n := |rs| - 1;
      Kept(rs[..n]) + (if rs[n].Some? then [rs[n].value] else [])
  }

  /** The positions of the present values of `rs`, in order. */
  ghost function KeptIndices<X>(rs: seq<Option<X>>): seq<nat>
  {
    if rs == [] then []
    else
      var n := |rs| - 1;
      KeptIndices(rs[..n]) + (if rs[n].Some? then [n] else [])
  }

  /** `kept` lists the present values of `rs` at the increasing positions
      `idx`, and `idx` names every present position. */
  ghost predicate KeptAt<X>(rs: seq<Option<X>>, idx: seq<nat>, kept: seq<X>)
  {
    && |idx| == |kept|
    && (forall a, b :: 0 <= a < b < |idx| ==> idx[a] < idx[b])
    && (forall k :: 0 <= k < |idx| ==> idx[k] < |rs| && rs[idx[k]] == Some(kept[k]))
    && (forall j :: 0 <= j < |rs| && rs[j].Some? ==> j in idx)
  }

  /** `Kept` and `KeptIndices` agree position by position. */
  lemma {:induction false} KeptCharacterized<X>(rs: seq<Option<X>>)
    ensures KeptAt(rs, KeptIndices(rs), Kept(rs))
  {
    if rs != [] {
      var n := |rs| - 1;
      var init := rs[..n];
      KeptCharacterized(init);
      var idx, kept := KeptIndices(init), Kept(init);
      var idx' := idx + (if rs[n].Some? then [n] else []);
      assert forall k :: 0 <= k < |idx| ==> idx[k] < n && rs[idx[k]] == init[idx[k]];
      forall j | 0 <= j < |rs| && rs[j].Some?
        ensures j in idx'
      {
        if j < n {
          assert rs[j] == init[j];
        } else {
          assert idx'[|idx|] == j;
        }
      }
    }
  }

  /** The loop's result as a function of the per-target resolutions. */
  function Resolutions(roster: seq<RosterEntry>, targetNames: seq<string>): (rs: seq<Option<MatchedRider>>)
    ensures |rs| == |targetNames|
    ensures forall i :: 0 <= i < |targetNames| ==> rs[i] == Resolve(roster, targetNames[i])
  {
    seq(|targetNames|, i requires 0 <= i < |targetNames| => Resolve(roster, targetNames[i]))
  }

  /** The loop pushes exactly the present resolutions, in target order. */
  lemma {:induction false} MatchesAsKept(roster: seq<RosterEntry>, targetNames: seq<string>)
    ensures Matches(roster, targetNames) == Kept(Resolutions(roster, targetNames))
  {
    if targetNames != [] {
      var n := |targetNames| - 1;
      MatchesAsKept(roster, targetNames[..n]);
      assert Resolutions(roster, targetNames)[..n] == Resolutions(roster, targetNames[..n]);
    }
  }

  /** The indices of the target names that found a roster entry, in order. */
  ghost function MatchedIndices(roster: seq<RosterEntry>, targetNames: seq<string>): seq<nat>
  {
    KeptIndices(Resolutions(roster, targetNames))
  }

  /** The matcher keeps the targets that found an entry, in target order and
      without deduplication, pairing each with its first matching entry, and
      drops every other target. */
  lemma MatchesCharacterized(roster: seq<RosterEntry>, targetNames: seq<string>)
    ensures var idx, found := MatchedIndices(roster, targetNames), Matches(roster, targetNames);
      && |idx| == |found|
      && (forall a, b :: 0 <= a < b < |idx| ==> idx[a] < idx[b])
      && (forall k :: 0 <= k < |idx| ==>
            idx[k] < |targetNames| && Resolve(roster, targetNames[idx[k]]) == Some(found[k]))
      && (forall j :: 0 <= j < |targetNames| && Resolve(roster, targetNames[j]).Some? ==> j in idx)
  {
    MatchesAsKept(roster, targetNames);
    KeptCharacterized(Resolutions(roster, targetNames));
  }

  /** Matching two lists of targets one after the other gives the two results
      one after the other: targets are handled independently and repeated
      targets are not merged. */
  lemma {:induction false} MatchesAppend(roster: seq<RosterEntry>, ts1: seq<string>, ts2: seq<string>)
    ensures Matches(roster, ts1 + ts2) == Matches(roster, ts1) + Matches(roster, ts2)
    decreases |ts2|
  {
    if ts2 == [] {
      assert ts1 + ts2 == ts1;
    } else {
      var n := |ts2| - 1;
      assert (ts1 + ts2)[..|ts1 + ts2| - 1] == ts1 + ts2[..n];
      MatchesAppend(roster, ts1, ts2[..n]);
    }
  }

  /** At most one entry per target name. */
  lemma MatchesLength(roster: seq<RosterEntry>, targetNames: seq<string>)
    ensures |Matches(roster, targetNames)| <= |targetNames|
  {
    MatchesCharacterized(roster, targetNames);
    var idx := MatchedIndices(roster, targetNames);
    IncreasingBelow(idx, |targetNames|);
  }

  /** A strictly increasing sequence of indices below `n` has at most `n` elements. */
  lemma {:induction false} IncreasingBelow(idx: seq<nat>, n: nat)
    requires forall a, b :: 0 <= a < b < |idx| ==> idx[a] < idx[b]
    requires forall k :: 0 <= k < |idx| ==> idx[k] < n
    ensures |idx| <= n
  {
    if idx != [] {
      var m := |idx| - 1;
      IncreasingBelow(idx[..m], idx[m]);
    }
  }

  /** `xs` is a subsequence of `ys`. */
  ghost predicate IsSubsequence(xs: seq<string>, ys: seq<string>)
  {
    exists idx: seq<nat> ::
      && |idx| == |xs|
      && (forall a, b :: 0 <= a < b < |idx| ==> idx[a] < idx[b])
      && (forall k :: 0 <= k < |idx| ==> idx[k] < |ys| && xs[k] == ys[idx[k]])
  }

  /** The `originalName` field of each matched rider. */
  function OriginalNames(found: seq<MatchedRider>): (names: seq<string>)
    ensures |names| == |found|
    ensures forall k :: 0 <= k < |found| ==> names[k] == found[k].originalName
  {
    seq(|found|, k requires 0 <= k < |found| => found[k].originalName)
  }

  /** The `originalName` values, in order, are a subsequence of the targets. */
  lemma MatchesSubsequence(roster: seq<RosterEntry>, targetNames: seq<string>)
    ensures IsSubsequence(OriginalNames(Matches(roster, targetNames)), targetNames)
  {
    MatchesCharacterized(roster, targetNames);
    var idx := MatchedIndices(roster, targetNames);
    var found := Matches(roster, targetNames);
    assert forall k :: 0 <= k < |idx| ==> OriginalNames(found)[k] == targetNames[idx[k]];
  }

  /** An entry whose name is empty is related to every target, since each
      string includes the empty string. */
  lemma EmptyNameMatchesEveryTarget(riderID: int, targetName: string)
    ensures EntryMatches(RosterEntry(riderID, ""), targetName)
  {
    assert ExtractRiderName("") == "";
    assert Contains(targetName, "");
  }

  /** A wrapped roster name is cleaned and matched by a shorter target, and
      the target is kept as `originalName`. */
  lemma MatchesJaneExample()
    ensures Matches([RosterEntry(1, ">Jane Doe<")], ["Jane"]) == [MatchedRider(1, "Jane Doe", "Jane")]
  {
    var s := ">Jane Doe<";
    assert FindMatch(s, 0, NotLess) == Some((0, 9));
    assert ExtractRiderName(s) == "Jane Doe";
    assert Contains("Jane Doe", "Jane");
    assert FindInRoster([RosterEntry(1, s)], "Jane", 0) == Some(0);
    assert ["Jane"][..0] == [];
  }

  /** A target with no containment relation to any roster name is dropped. */
  lemma MatchesZedExample()
    ensures Matches([RosterEntry(1, ">Jane Doe<")], ["Zed"]) == []
  {
    var s := ">Jane Doe<";
    assert FindMatch(s, 0, NotLess) == Some((0, 9));
    assert ExtractRiderName(s) == "Jane Doe";
    ZedUnrelatedToJane();
    assert FindInRoster([RosterEntry(1, s)], "Zed", 0) == None;
    assert ["Zed"][..0] == [];
  }

  /** Neither of "Zed" and "Jane Doe" contains the other. */
  lemma ZedUnrelatedToJane()
    ensures !Contains("Jane Doe", "Zed") && !Contains("Zed", "Jane Doe")
  {
    assert 'Z' !in "Jane Doe";
    NoContainsWithoutFirstChar("Jane Doe", "Zed");
    NoContainsWhenLonger("Zed", "Jane Doe");
  }

}
