/** The class resolver of parser.js: the class lookup table built from the
    class endpoint, and the two-tier class label of `formatClassString`. */
module ClassResolver {
  import opened Wrappers
  import opened Strings

  /** One record of `classData.classData`; the fields the program does not
      read are left out. */
  datatype ClassRecord = ClassRecord(classID: string, className: string)

  /** The lookup object, keyed by the class ID coerced to a string. */
  type ClassLookup = map<string, ClassRecord>

  /** `config.classMapping` as the ordered (pattern, replacement) entries
      that `Object.entries` yields. */
  type ClassMapping = seq<(string, string)>

  /** `recs[i]` is the last record whose ID is `id`. */
  ghost predicate LastWithId(recs: seq<ClassRecord>, id: string, i: int)
  {
    0 <= i < |recs| && recs[i].classID == id &&
    forall j :: i < j < |recs| ==> recs[j].classID != id
  }

  /** The lookup after assigning `lookup[cls.classID] = cls` for every record
      in order. */
  function ClassLookupOf(recs: seq<ClassRecord>): ClassLookup
  {
    if recs == [] then map[]
    else
      var last := recs[|recs| - 1];
      ClassLookupOf(recs[..|recs| - 1])[last.classID := last]
  }

  /** The keys are exactly the record IDs, and each key maps to the last
      record with that ID. */
  lemma {:induction false} ClassLookupSpec(recs: seq<ClassRecord>)
    ensures ClassLookupOf(recs).Keys == set r | r in recs :: r.classID
    ensures forall id :: id in ClassLookupOf(recs) ==>
      exists i :: LastWithId(recs, id, i) && ClassLookupOf(recs)[id] == recs[i]
  {
    if recs != [] {
      var init, last := recs[..|recs| - 1], recs[|recs| - 1];
      assert recs == init + [last];
      ClassLookupSpec(init);
      var lookup := ClassLookupOf(recs);
      assert LastWithId(recs, last.classID, |recs| - 1);
      forall id | id in lookup && id != last.classID
        ensures exists i :: LastWithId(recs, id, i) && lookup[id] == recs[i]
      {
        var i :| LastWithId(init, id, i) && ClassLookupOf(init)[id] == init[i];
        assert LastWithId(recs, id, i);
      }
    }
  }

  /** The lookup for a class payload; a missing payload, a payload without
      `classData` or one whose `classData` is not an array gives `{}`. */
  function LookupFrom(classData: Option<seq<ClassRecord>>): ClassLookup
  {
    match classData
    case None => map[]
    case Some(recs) => ClassLookupOf(recs)
  }

  /** parser.js `buildClassLookup`. */
  method BuildClassLookup(classData: Option<seq<ClassRecord>>) returns (lookup: ClassLookup)
    ensures classData.None? ==> lookup == map[]
    ensures classData.Some? ==> lookup == ClassLookupOf(classData.value)
  {
    lookup := map[];
    if classData.Some? {
      var recs := classData.value;
      for n := 0 to |recs|
        invariant lookup == ClassLookupOf(recs[..n])
      {
        assert recs[..n + 1][..n] == recs[..n];
        lookup := lookup[recs[n].classID := recs[n]];
      }
      assert recs[..|recs|] == recs;
    }
  }

  /** `className`: the looked-up name, or `''` when the ID is unknown. */
  function ClassNameOf(classId: string, lookup: ClassLookup): string
  {
    if classId in lookup then lookup[classId].className else ""
  }

  /** `fullTestName`: the test name when it is non-empty, else the class name. */
  function FullTestName(test: string, className: string): string
  {
    if test != "" then test else className
  }

  /** Entry `j` is the first mapping entry whose pattern occurs in `name`. */
  ghost predicate IsFirstMatch(mapping: ClassMapping, name: string, j: int)
  {
    0 <= j < |mapping| && Contains(name, mapping[j].0) &&
    forall k :: 0 <= k < j ==> !Contains(name, mapping[k].0)
  }

  /** The first mapping entry at or after `from` whose pattern occurs in `name`. */
  function FirstMapping(mapping: ClassMapping, name: string, from: nat): (f: Option<nat>)
    requires from <= |mapping|
    ensures f.Some? ==> from <= f.value < |mapping| && Contains(name, mapping[f.value].0)
    ensures f.Some? ==> forall k :: from <= k < f.value ==> !Contains(name, mapping[k].0)
    ensures f.None? ==> forall k :: from <= k < |mapping| ==> !Contains(name, mapping[k].0)
    decreases |mapping| - from
  {
    if from == |mapping| then None
    else if Contains(name, mapping[from].0) then Some(from)
    else FirstMapping(mapping, name, from + 1)
  }

  /** A scan that stops at the first matching entry, or passes every entry,
      finds what `FirstMapping` finds. */
  lemma FirstMappingFrom(mapping: ClassMapping, name: string, hit: Option<nat>)
    requires hit.Some? ==> IsFirstMatch(mapping, name, hit.value)
    requires hit.None? ==> forall k :: 0 <= k < |mapping| ==> !Contains(name, mapping[k].0)
    ensures FirstMapping(mapping, name, 0) == hit
  {
    var f := FirstMapping(mapping, name, 0);
    if f.Some? && hit.Some? {
      assert !(f.value < hit.value) && !(hit.value < f.value);
    }
  }

  /** The label built when no mapping applies: the class ID, then the class
      name, then the test name, each of the last two only when non-empty. */
  function TraditionalLabel(classId: string, className: string, test: string): string
  {
    classId
    + (if className != "" then " - " + className else "")
    + (if test != "" then " - " + test else "")
  }

  /** The result of parser.js `formatClassString`. The replacement of the
      first matching pattern wins, unless it equals the test name itself, in
      which case the traditional label is returned. */
  function FormatClass(classId: string, test: string, lookup: ClassLookup, mapping: ClassMapping): string
  {
    var className := ClassNameOf(classId, lookup);
    var full := FullTestName(test, className);
    match FirstMapping(mapping, full, 0)
    case Some(j) =>
      if mapping[j].1 != full then mapping[j].1 else TraditionalLabel(classId, className, test)
    case None =>
      TraditionalLabel(classId, className, test)
  }

  /** The two tiers of `formatClassString`: the replacement of the first
      pattern that occurs in `fullTestName` wins when it differs from
      `fullTestName`; otherwise (no pattern occurs, or the replacement equals
      `fullTestName`) the traditional label is the result. */
  lemma FormatClassTiers(classId: string, test: string, lookup: ClassLookup, mapping: ClassMapping)
    ensures var full, r := FullTestName(test, ClassNameOf(classId, lookup)), FormatClass(classId, test, lookup, mapping);
      forall j :: IsFirstMatch(mapping, full, j) && mapping[j].1 != full ==> r == mapping[j].1
    ensures var full, r := FullTestName(test, ClassNameOf(classId, lookup)), FormatClass(classId, test, lookup, mapping);
      (forall j :: IsFirstMatch(mapping, full, j) ==> mapping[j].1 == full) ==>
        r == TraditionalLabel(classId, ClassNameOf(classId, lookup), test)
    ensures mapping == [] ==>
      FormatClass(classId, test, lookup, mapping) == TraditionalLabel(classId, ClassNameOf(classId, lookup), test)
  {
    var full := FullTestName(test, ClassNameOf(classId, lookup));
    match FirstMapping(mapping, full, 0)
    case Some(j) =>
      assert IsFirstMatch(mapping, full, j);
      forall j' | IsFirstMatch(mapping, full, j') ensures j' == j {
      }
    case None =>
  }

  /** Once some pattern of `mapping` occurs in `fullTestName`, entries
      appended after `mapping` are never examined. */
  lemma LaterPatternsIgnored(classId: string, test: string, lookup: ClassLookup, mapping: ClassMapping,
                             rest: ClassMapping, j: nat)
    requires j < |mapping| && Contains(FullTestName(test, ClassNameOf(classId, lookup)), mapping[j].0)
    ensures FormatClass(classId, test, lookup, mapping + rest) == FormatClass(classId, test, lookup, mapping)
  {
    var full := FullTestName(test, ClassNameOf(classId, lookup));
    var f := FirstMapping(mapping, full, 0);
    assert f.Some?;
    assert forall k :: 0 <= k <= f.value ==> (mapping + rest)[k] == mapping[k];
    FirstMappingFrom(mapping + rest, full, f);
  }

  /** parser.js `formatClassString`, with its ordered scan and `break`. */
  method FormatClassString(classId: string, test: string, classLookup: ClassLookup, classMapping: ClassMapping)
    returns (result: string)
    ensures result == FormatClass(classId, test, classLookup, classMapping)
  {
    var className := "";
    if classId in classLookup && classLookup[classId].className != "" {
      className := classLookup[classId].className;
    }

    var fullTestName := className;
    if test != "" {
      fullTestName := test;
    }

    var mappedName := fullTestName;
    ghost var hit: Option<nat> := None;
    var i := 0;
    while i < |classMapping|
      invariant 0 <= i <= |classMapping|
      invariant mappedName == fullTestName && hit.None?
      invariant forall k :: 0 <= k < i ==> !Contains(fullTestName, classMapping[k].0)
    {
      if Contains(fullTestName, classMapping[i].0) {
        mappedName := classMapping[i].1;
        hit := Some(i);
        break;
      }
      i := i + 1;
    }
    FirstMappingFrom(classMapping, fullTestName, hit);

    if mappedName != fullTestName {
      return mappedName;
    }

    result := classId;
    if className != "" {
      result := result + " - " + className;
    }
    if test != "" {
      result := result + " - " + test;
    }
  }

  /** With a non-empty test name, a mapping that applies decides the label
      whatever the lookup holds. */
  lemma MappedLabelIgnoresLookup(classId: string, test: string, lookup1: ClassLookup, lookup2: ClassLookup,
                                 mapping: ClassMapping, j: nat)
    requires test != "" && IsFirstMatch(mapping, test, j) && mapping[j].1 != test
    ensures FormatClass(classId, test, lookup1, mapping) == mapping[j].1
    ensures FormatClass(classId, test, lookup2, mapping) == mapping[j].1
  {
    FormatClassTiers(classId, test, lookup1, mapping);
    FormatClassTiers(classId, test, lookup2, mapping);
  }

}
