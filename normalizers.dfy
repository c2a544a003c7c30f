/** The text normalizers of parser.js: the two regex extractors, the ring
    alias and the weekday table.

    Both regexes have the shape `>(C+)<` for a character class C that does
    not contain `<` (`[^<]` for rider names, `\d` for class numbers). Such a
    regex matches at position `i` exactly when `s[i]` is `>` and the maximal
    run of C-characters after it is non-empty and followed by `<`; the
    leftmost such `i` wins and the run is the captured group. */
module TextNormalizers {
  import opened Wrappers
  import opened Strings

  /** The class `[^<]`. */
  predicate NotLess(c: char)
  {
    c != '<'
  }

  /** The class `\d`, which in JavaScript means the ASCII digits only. */
  predicate IsDigit(c: char)
  {
    '0' <= c <= '9'
  }

  /** The regex `>(C+)<` matches `s[i..k + 1]`, capturing `s[i + 1..k]`. */
  ghost predicate BodyAt(s: string, i: int, k: int, inRun: char -> bool)
  {
    0 <= i && i + 1 < k < |s| && s[i] == '>' && s[k] == '<' &&
    forall m :: i < m < k ==> inRun(s[m])
  }

  /** The regex `>(C+)<` has a match starting at index `i`. */
  ghost predicate MatchAt(s: string, i: int, inRun: char -> bool)
  {
    exists k :: BodyAt(s, i, k, inRun)
  }

  /** `s[i + 1..k]` is the group captured by the leftmost match. */
  ghost predicate LeftmostBody(s: string, i: int, k: int, inRun: char -> bool)
  {
    BodyAt(s, i, k, inRun) && forall j :: 0 <= j < i ==> !MatchAt(s, j, inRun)
  }

  /** Index of the first character at or after `j` outside the class, or
      `|s|` when the run reaches the end. */
  function RunEnd(s: string, j: nat, inRun: char -> bool): (k: nat)
    requires j <= |s|
    ensures j <= k <= |s|
    ensures forall m :: j <= m < k ==> inRun(s[m])
    ensures k < |s| ==> !inRun(s[k])
    decreases |s| - j
  {
    if j == |s| || !inRun(s[j]) then j else RunEnd(s, j + 1, inRun)
  }

  /** When `<` is outside the class, a match at `i` can only end where
      the run of class characters after `i` ends. */
  lemma MatchEndsRun(s: string, i: int, inRun: char -> bool)
    requires !inRun('<') && 0 <= i < |s|
    ensures MatchAt(s, i, inRun) ==> BodyAt(s, i, RunEnd(s, i + 1, inRun), inRun)
  {
    if MatchAt(s, i, inRun) {
      var k := RunEnd(s, i + 1, inRun);
      var k' :| BodyAt(s, i, k', inRun);
      assert !inRun(s[k']);
      assert k' >= k;
      assert k' <= k;
    }
  }

  /** The leftmost match at or after `from`, as the pair (index of `>`,
      index of `<`). */
  function FindMatch(s: string, from: nat, inRun: char -> bool): (m: Option<(nat, nat)>)
    requires from <= |s|
    ensures m.Some? ==> from <= m.value.0 && m.value.0 + 1 < m.value.1 < |s|
    decreases |s| - from
  {
    if from == |s| then None
    else
      var k := RunEnd(s, from + 1, inRun);
      if s[from] == '>' && from + 1 < k < |s| && s[k] == '<' then Some((from, k))
      else FindMatch(s, from + 1, inRun)
  }

  /** `FindMatch` returns the leftmost match at or after `from`, and `None`
      exactly when there is none. */
  lemma {:induction false} FindMatchSpec(s: string, from: nat, inRun: char -> bool)
    requires from <= |s|
    requires !inRun('<')
    ensures var m := FindMatch(s, from, inRun);
      && (m.Some? ==> from <= m.value.0 && BodyAt(s, m.value.0, m.value.1, inRun))
      && (m.Some? ==> forall j :: from <= j < m.value.0 ==> !MatchAt(s, j, inRun))
      && (m.None? ==> forall j :: from <= j < |s| ==> !MatchAt(s, j, inRun))
    decreases |s| - from
  {
    if from < |s| {
      var k := RunEnd(s, from + 1, inRun);
      if !(s[from] == '>' && from + 1 < k < |s| && s[k] == '<') {
        MatchEndsRun(s, from, inRun);
        FindMatchSpec(s, from + 1, inRun);
      }
    }
  }

  /** `html.match(/>(C+)</)` followed by `match ? match[1] : html`. */
  function ExtractFirst(html: string, inRun: char -> bool): string
  {
    match FindMatch(html, 0, inRun)
    case None => html
    case Some((i, k)) => html[i + 1..k]
  }

  /** No match leaves the input unchanged; otherwise the result is the group
      captured by the leftmost match: non-empty, inside the class, and found
      in the input between `>` and `<`. */
  lemma ExtractFirstSpec(html: string, inRun: char -> bool)
    requires !inRun('<')
    ensures var r := ExtractFirst(html, inRun);
      && ((forall i :: 0 <= i < |html| ==> !MatchAt(html, i, inRun)) ==> r == html)
      && ((exists i :: 0 <= i < |html| && MatchAt(html, i, inRun)) ==>
          && (exists i, k :: LeftmostBody(html, i, k, inRun) && r == html[i + 1..k])
          && r != [] && (forall x :: 0 <= x < |r| ==> inRun(r[x])) && Contains(html, ">" + r + "<"))
  {
    if forall i :: 0 <= i < |html| ==> !MatchAt(html, i, inRun) {
      ExtractFirstUnmatched(html, inRun);
    } else {
      ExtractFirstMatched(html, inRun);
    }
  }

  /** Without a match the input is returned unchanged. */
  lemma ExtractFirstUnmatched(html: string, inRun: char -> bool)
    requires !inRun('<')
    requires forall i :: 0 <= i < |html| ==> !MatchAt(html, i, inRun)
    ensures ExtractFirst(html, inRun) == html
  {
    FindMatchSpec(html, 0, inRun);
    var m := FindMatch(html, 0, inRun);
    assert m.Some? ==> MatchAt(html, m.value.0, inRun);
  }

  /** With a match the result is the leftmost captured group. */
  lemma ExtractFirstMatched(html: string, inRun: char -> bool)
    requires !inRun('<')
    requires exists i :: 0 <= i < |html| && MatchAt(html, i, inRun)
    ensures var r := ExtractFirst(html, inRun);
      && (exists i, k :: LeftmostBody(html, i, k, inRun) && r == html[i + 1..k])
      && r != [] && (forall x :: 0 <= x < |r| ==> inRun(r[x])) && Contains(html, ">" + r + "<")
  {
    FindMatchSpec(html, 0, inRun);
    var m := FindMatch(html, 0, inRun);
    assert m.Some?;
    var i, k := m.value.0, m.value.1;
    assert LeftmostBody(html, i, k, inRun);
    BodyFacts(html, i, k, inRun);
  }

  /** The captured group of any match is non-empty, lies in the class, and
      reappears in the input between `>` and `<`. */
  lemma BodyFacts(s: string, i: int, k: int, inRun: char -> bool)
    requires BodyAt(s, i, k, inRun)
    ensures var r := s[i + 1..k];
      r != [] && (forall x :: 0 <= x < |r| ==> inRun(r[x])) && Contains(s, ">" + r + "<")
  {
    var r := s[i + 1..k];
    forall x | 0 <= x < |r| ensures inRun(r[x]) {
      assert r[x] == s[i + 1 + x];
    }
    assert s[i..i + |">" + r + "<"|] == ">" + r + "<";
    assert OccursAt(">" + r + "<", s, i);
    ContainsIffOccurs(s, ">" + r + "<");
  }

  /** parser.js `extractRiderName`. */
  function ExtractRiderName(html: string): string
  {
    ExtractFirst(html, NotLess)
  }

  /** `extractRiderName` returns the leftmost `>name<` body, which is
      non-empty, has no `<` and occurs in the input as `>name<`; without
      such a body it returns the input unchanged. */
  lemma ExtractRiderNameSpec(html: string)
    ensures var r := ExtractRiderName(html);
      && ((forall i :: 0 <= i < |html| ==> !MatchAt(html, i, NotLess)) ==> r == html)
      && ((exists i :: 0 <= i < |html| && MatchAt(html, i, NotLess)) ==>
          && (exists i, k :: LeftmostBody(html, i, k, NotLess) && r == html[i + 1..k])
          && r != [] && '<' !in r && Contains(html, ">" + r + "<"))
  {
    ExtractFirstSpec(html, NotLess);
    var r := ExtractRiderName(html);
    assert (forall x :: 0 <= x < |r| ==> NotLess(r[x])) ==> '<' !in r;
  }

  /** parser.js `extractClassNumber`. */
  function ExtractClassNumber(html: string): string
  {
    ExtractFirst(html, IsDigit)
  }

  /** `extractClassNumber` returns the leftmost `>digits<` body, a non-empty
      run of ASCII digits; without such a body it returns the input unchanged. */
  lemma ExtractClassNumberSpec(html: string)
    ensures var r := ExtractClassNumber(html);
      && ((forall i :: 0 <= i < |html| ==> !MatchAt(html, i, IsDigit)) ==> r == html)
      && ((exists i :: 0 <= i < |html| && MatchAt(html, i, IsDigit)) ==>
          && (exists i, k :: LeftmostBody(html, i, k, IsDigit) && r == html[i + 1..k])
          && r != [] && (forall x :: 0 <= x < |r| ==> IsDigit(r[x])) && Contains(html, ">" + r + "<"))
  {
    ExtractFirstSpec(html, IsDigit);
  }

  /** parser.js `normalizeRingName`: the one alias of the ring table. */
  function NormalizeRingName(ringName: string): string
  {
    if ringName == "Combine Obstacle" then "Combiné" else ringName
  }

  /** "Combine Obstacle" becomes "Combiné", every other name passes through,
      and normalising twice changes nothing more. */
  lemma NormalizeRingNameSpec(ringName: string)
    ensures ringName == "Combine Obstacle" ==> NormalizeRingName(ringName) == "Combiné"
    ensures ringName != "Combine Obstacle" ==> NormalizeRingName(ringName) == ringName
    ensures NormalizeRingName(NormalizeRingName(ringName)) == NormalizeRingName(ringName)
  {
  }

  /** The `dayMap` step of parser.js `getFrenchDay`. */
  function FrenchDay(englishDay: string): string
  {
    if englishDay == "Friday" then "Vendredi"
    else if englishDay == "Saturday" then "Samedi"
    else if englishDay == "Sunday" then "Dimanche"
    else englishDay
  }

  /** The weekend days are translated, and they are exactly the names that
      the translation changes. */
  lemma FrenchDaySpec(englishDay: string)
    ensures englishDay == "Friday" ==> FrenchDay(englishDay) == "Vendredi"
    ensures englishDay == "Saturday" ==> FrenchDay(englishDay) == "Samedi"
    ensures englishDay == "Sunday" ==> FrenchDay(englishDay) == "Dimanche"
    ensures FrenchDay(englishDay) == englishDay <==> englishDay !in {"Friday", "Saturday", "Sunday"}
  {
  }

}
