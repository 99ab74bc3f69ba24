/**
 * The overlapping exact-match search of `find_matches`: a forward scan for the probe,
 * then a scan for its reverse complement, each reporting 1-based inclusive positions.
 */
module Search {
  import opened Nucleotides

  /** The two match labels, "5′→3′" (the probe itself) and "3′→5′" (its reverse complement). */
  datatype Orientation = Forward | Reverse

  /** One `(start_pos, end_pos, match_type)` triple; positions are 1-based and inclusive. */
  datatype Hit = Hit(startPos: int, endPos: int, orientation: Orientation)

  /** `needle` occurs in `hay` starting at 0-based index `k`. */
  predicate OccursAt(hay: string, needle: string, k: int)
  {
    0 <= k && k + |needle| <= |hay| && hay[k..k + |needle|] == needle
  }

  /**
   * Python's `hay.find(needle, start)` for a non-negative `start`: the lowest index at or
   * after `start` where `needle` occurs, or -1. An empty needle is found at `start`
   * itself as long as `start <= |hay|`.
   */
  function Find(hay: string, needle: string, start: nat): (pos: int)
    ensures pos == -1 || (start <= pos && pos + |needle| <= |hay|)
    decreases |hay| + 1 - start
  {
    if start + |needle| > |hay| then -1
    else if hay[start..start + |needle|] == needle then start
    else Find(hay, needle, start + 1)
  }

  /**
   * `find` returns an occurrence, and no index between `start` and it (or after `start`
   * at all, when it returns -1) holds one.
   */
  lemma {:induction false} FindIsFirstOccurrence(hay: string, needle: string, start: nat)
    ensures Find(hay, needle, start) == -1 || OccursAt(hay, needle, Find(hay, needle, start))
    ensures forall k :: start <= k && (Find(hay, needle, start) == -1 || k < Find(hay, needle, start)) ==>
      !OccursAt(hay, needle, k)
    decreases |hay| + 1 - start
  {
    if start + |needle| <= |hay| && hay[start..start + |needle|] != needle {
      FindIsFirstOccurrence(hay, needle, start + 1);
    }
  }

  /** Python's `needle in hay`: a `find` from index 0 succeeds exactly when `needle` occurs somewhere. */
  lemma FindFromStartIsContainment(hay: string, needle: string)
    ensures Find(hay, needle, 0) != -1 <==> exists k :: OccursAt(hay, needle, k)
  {
    FindIsFirstOccurrence(hay, needle, 0);
  }

  /**
   * Reference definition of the search result: every index at or after `from` where
   * `needle` occurs, in ascending order.
   */
  function OccurrencesFrom(hay: string, needle: string, from: nat): seq<nat>
    decreases |hay| + 1 - from
  {
    if from + |needle| > |hay| then []
    else (if OccursAt(hay, needle, from) then [from] else []) + OccurrencesFrom(hay, needle, from + 1)
  }

  /** Every listed index is at or after `from` and holds an occurrence. */
  lemma {:induction false} OccurrencesFromSound(hay: string, needle: string, from: nat)
    ensures forall j | 0 <= j < |OccurrencesFrom(hay, needle, from)| ::
      from <= OccurrencesFrom(hay, needle, from)[j] && OccursAt(hay, needle, OccurrencesFrom(hay, needle, from)[j])
    decreases |hay| + 1 - from
  {
    if from + |needle| <= |hay| {
      var head: seq<nat> := if OccursAt(hay, needle, from) then [from] else [];
      var rest := OccurrencesFrom(hay, needle, from + 1);
      OccurrencesFromSound(hay, needle, from + 1);
      assert OccurrencesFrom(hay, needle, from) == head + rest;
      forall j | 0 <= j < |head + rest|
        ensures from <= (head + rest)[j] && OccursAt(hay, needle, (head + rest)[j])
      {
        if j < |head| {
          assert (head + rest)[j] == from;
        } else {
          assert (head + rest)[j] == rest[j - |head|];
        }
      }
    }
  }

  /** Every occurrence at or after `from` is listed. */
  lemma {:induction false} OccurrencesFromComplete(hay: string, needle: string, from: nat, k: int)
    requires from <= k && OccursAt(hay, needle, k)
    ensures k in OccurrencesFrom(hay, needle, from)
    decreases |hay| + 1 - from
  {
    if k != from {
      OccurrencesFromComplete(hay, needle, from + 1, k);
    }
  }

  /** The listed indices strictly increase. */
  lemma {:induction false} OccurrencesFromSorted(hay: string, needle: string, from: nat)
    ensures forall j, k | 0 <= j < k < |OccurrencesFrom(hay, needle, from)| ::
      OccurrencesFrom(hay, needle, from)[j] < OccurrencesFrom(hay, needle, from)[k]
    decreases |hay| + 1 - from
  {
    if from + |needle| <= |hay| {
      var head: seq<nat> := if OccursAt(hay, needle, from) then [from] else [];
      var rest := OccurrencesFrom(hay, needle, from + 1);
      OccurrencesFromSound(hay, needle, from + 1);
      OccurrencesFromSorted(hay, needle, from + 1);
      assert OccurrencesFrom(hay, needle, from) == head + rest;
      forall j, k | 0 <= j < k < |head + rest|
        ensures (head + rest)[j] < (head + rest)[k]
      {
        assert (head + rest)[k] == rest[k - |head|];
        if j >= |head| {
          assert (head + rest)[j] == rest[j - |head|];
        }
      }
    }
  }

  function Occurrences(hay: string, needle: string): seq<nat>
  {
    OccurrencesFrom(hay, needle, 0)
  }

  /** An index is listed exactly when it holds an occurrence. */
  lemma OccurrencesIff(hay: string, needle: string, i: int)
    ensures i in Occurrences(hay, needle) <==> OccursAt(hay, needle, i)
  {
    OccurrencesFromSound(hay, needle, 0);
    if OccursAt(hay, needle, i) {
      OccurrencesFromComplete(hay, needle, 0, i);
    }
  }

  /** The triples reported for occurrences `ps` of a needle of length `width`. */
  function HitsOf(ps: seq<nat>, width: nat, orientation: Orientation): seq<Hit>
  {
    seq(|ps|, j requires 0 <= j < |ps| => Hit(ps[j] + 1, ps[j] + width, orientation))
  }

  /** The needle each orientation searches for: the upper-cased probe or its reverse complement. */
  function Needle(probe: string, orientation: Orientation): string
  {
    match orientation
    case Forward => UpperStr(probe)
    case Reverse => ReverseComplement(probe)
  }

  /**
   * Specification of `find_matches`: every forward occurrence in ascending order, then,
   * when the reverse complement is non-empty, every occurrence of it in ascending order.
   */
  function Matches(probe: string, target: string): seq<Hit>
  {
    var hay := UpperStr(target);
    var revComp := ReverseComplement(probe);
    HitsOf(Occurrences(hay, UpperStr(probe)), |probe|, Forward) +
    (if revComp != "" then HitsOf(Occurrences(hay, revComp), |revComp|, Reverse) else [])
  }

  /** When `find` succeeds from `start`, the occurrences from `start` are that hit and those after it. */
  lemma {:induction false} FindThenRest(hay: string, needle: string, start: nat)
    requires Find(hay, needle, start) != -1
    ensures OccurrencesFrom(hay, needle, start) ==
            [Find(hay, needle, start)] + OccurrencesFrom(hay, needle, Find(hay, needle, start) + 1)
    decreases |hay| + 1 - start
  {
    assert start + |needle| <= |hay|;
    var rest := OccurrencesFrom(hay, needle, start + 1);
    if OccursAt(hay, needle, start) {
      assert Find(hay, needle, start) == start;
      assert OccurrencesFrom(hay, needle, start) == [start] + rest;
    } else {
      assert Find(hay, needle, start) == Find(hay, needle, start + 1);
      assert OccurrencesFrom(hay, needle, start) == [] + rest;
      FindThenRest(hay, needle, start + 1);
    }
  }

  lemma HitsOfSnoc(ps: seq<nat>, p: nat, width: nat, orientation: Orientation)
    ensures HitsOf(ps + [p], width, orientation) == HitsOf(ps, width, orientation) + [Hit(p + 1, p + width, orientation)]
  {
  }

  /** The bookkeeping of one iteration of the scan: the hit `find` returns is the next occurrence. */
  lemma ScanStep(hay: string, needle: string, start: nat, found: seq<nat>, orientation: Orientation)
    requires found + OccurrencesFrom(hay, needle, start) == Occurrences(hay, needle)
    requires Find(hay, needle, start) != -1
    ensures (found + [Find(hay, needle, start)]) + OccurrencesFrom(hay, needle, Find(hay, needle, start) + 1) ==
            Occurrences(hay, needle)
    ensures Find(hay, needle, start) + 1 <= |hay| + 1
    ensures HitsOf(found + [Find(hay, needle, start)], |needle|, orientation) ==
            HitsOf(found, |needle|, orientation) +
            [Hit(Find(hay, needle, start) + 1, Find(hay, needle, start) + |needle|, orientation)]
  {
    HitsOfSnoc(found, Find(hay, needle, start), |needle|, orientation);
    FindThenRest(hay, needle, start);
    var pos := Find(hay, needle, start);
    assert (found + [pos]) + OccurrencesFrom(hay, needle, pos + 1) == found + ([pos] + OccurrencesFrom(hay, needle, pos + 1));
  }

  /** When `find` fails from `start`, there is no occurrence from `start` on. */
  lemma {:induction false} FindNone(hay: string, needle: string, start: nat)
    requires Find(hay, needle, start) == -1
    ensures OccurrencesFrom(hay, needle, start) == []
    decreases |hay| + 1 - start
  {
    if start + |needle| <= |hay| {
      assert !OccursAt(hay, needle, start);
      FindNone(hay, needle, start + 1);
    }
  }

  /**
   * One cursor-driven scan of `find_matches`: call `find` from the cursor, record the
   * hit, move the cursor one past the hit so that overlapping occurrences are found.
   */
  method ScanFor(hay: string, needle: string, orientation: Orientation) returns (hits: seq<Hit>)
    ensures hits == HitsOf(Occurrences(hay, needle), |needle|, orientation)
  {
    hits := [];
    ghost var all := Occurrences(hay, needle);
    ghost var found: seq<nat> := [];
    var start: nat := 0;
    while true
      invariant start <= |hay| + 1
      invariant found + OccurrencesFrom(hay, needle, start) == all
      invariant hits == HitsOf(found, |needle|, orientation)
      decreases |hay| + 1 - start
    {
      var pos := Find(hay, needle, start);
      if pos == -1 {
        FindNone(hay, needle, start);
        assert found == all;
        break;
      }
      ScanStep(hay, needle, start, found, orientation);
      hits := hits + [Hit(pos + 1, pos + |needle|, orientation)];
      found := found + [pos];
      start := pos + 1;
    }
  }

  /** `find_matches`: the forward scan, then the reverse-complement scan when there is one. */
  method FindMatches(probe: string, target: string) returns (hits: seq<Hit>)
    ensures hits == Matches(probe, target)
  {
    var probeUpper := UpperStr(probe);
    var targetUpper := UpperStr(target);
    hits := ScanFor(targetUpper, probeUpper, Forward);
    var revComp := ReverseComplement(probe);
    if revComp != "" {
      var reverseHits := ScanFor(targetUpper, revComp, Reverse);
      hits := hits + reverseHits;
    }
  }

  /** Number of forward hits at the front of `Matches(probe, target)`. */
  function ForwardCount(probe: string, target: string): nat
  {
    |Occurrences(UpperStr(target), UpperStr(probe))|
  }

  /** Hits built from strictly increasing occurrences have strictly increasing starts. */
  lemma HitsOfSorted(ps: seq<nat>, width: nat, orientation: Orientation)
    requires forall j, k | 0 <= j < k < |ps| :: ps[j] < ps[k]
    ensures forall j, k | 0 <= j < k < |ps| ::
      HitsOf(ps, width, orientation)[j].startPos < HitsOf(ps, width, orientation)[k].startPos
  {
  }

  /** Nothing is listed exactly when the needle occurs nowhere. */
  lemma OccurrencesEmptyIff(hay: string, needle: string)
    ensures Occurrences(hay, needle) == [] <==> forall k :: !OccursAt(hay, needle, k)
  {
    forall k | OccursAt(hay, needle, k)
      ensures k in Occurrences(hay, needle)
    {
      OccurrencesIff(hay, needle, k);
    }
    if Occurrences(hay, needle) != [] {
      OccurrencesIff(hay, needle, Occurrences(hay, needle)[0]);
    }
  }

  /** A hit of the given width and orientation is built exactly from a listed index. */
  lemma HitsOfMember(ps: seq<nat>, width: nat, orientation: Orientation, p: int)
    ensures Hit(p + 1, p + width, orientation) in HitsOf(ps, width, orientation) <==> p in ps
  {
    if p in ps {
      var j :| 0 <= j < |ps| && ps[j] == p;
      assert HitsOf(ps, width, orientation)[j] == Hit(p + 1, p + width, orientation);
    }
    if Hit(p + 1, p + width, orientation) in HitsOf(ps, width, orientation) {
      var j :| 0 <= j < |ps| && HitsOf(ps, width, orientation)[j] == Hit(p + 1, p + width, orientation);
      assert ps[j] == p;
    }
  }

  /** Every hit built from occurrences of `needle` in `hay` spans exactly that needle. */
  lemma HitsOfSound(hay: string, needle: string, ps: seq<nat>, orientation: Orientation)
    requires forall j | 0 <= j < |ps| :: OccursAt(hay, needle, ps[j])
    ensures forall h | h in HitsOf(ps, |needle|, orientation) ::
      h.orientation == orientation && 1 <= h.startPos && h.startPos - 1 <= h.endPos <= |hay| &&
      h.endPos - h.startPos + 1 == |needle| && hay[h.startPos - 1..h.endPos] == needle
  {
    forall h | h in HitsOf(ps, |needle|, orientation)
      ensures h.orientation == orientation && 1 <= h.startPos && h.startPos - 1 <= h.endPos <= |hay|
      ensures h.endPos - h.startPos + 1 == |needle| && hay[h.startPos - 1..h.endPos] == needle
    {
      var j :| 0 <= j < |ps| && HitsOf(ps, |needle|, orientation)[j] == h;
      assert OccursAt(hay, needle, ps[j]);
    }
  }

  /**
   * Layout and order: the forward hits come first, the reverse-complement hits after
   * them, and within one orientation the start positions strictly increase.
   */
  lemma MatchesOrdered(probe: string, target: string)
    ensures ForwardCount(probe, target) <= |Matches(probe, target)|
    ensures forall j | 0 <= j < |Matches(probe, target)| ::
      (Matches(probe, target)[j].orientation == Forward <==> j < ForwardCount(probe, target))
    ensures forall j, k | 0 <= j < k < |Matches(probe, target)| ::
      Matches(probe, target)[j].orientation == Matches(probe, target)[k].orientation ==>
      Matches(probe, target)[j].startPos < Matches(probe, target)[k].startPos
  {
    var hay := UpperStr(target);
    var revComp := ReverseComplement(probe);
    var fwd := Occurrences(hay, UpperStr(probe));
    var rev := if revComp != "" then Occurrences(hay, revComp) else [];
    OccurrencesFromSorted(hay, UpperStr(probe), 0);
    OccurrencesFromSorted(hay, revComp, 0);
    var f := HitsOf(fwd, |probe|, Forward);
    var r := HitsOf(rev, |revComp|, Reverse);
    HitsOfSorted(fwd, |probe|, Forward);
    HitsOfSorted(rev, |revComp|, Reverse);
    var m: seq<Hit> := f + r;
    assert Matches(probe, target) == m;
    forall j, k | 0 <= j < k < |m| && m[j].orientation == m[k].orientation
      ensures m[j].startPos < m[k].startPos
    {
      if k < |f| {
        assert m[j] == f[j] && m[k] == f[k];
      } else {
        assert m[k] == r[k - |f|];
        assert |f| <= j;
        assert m[j] == r[j - |f|];
      }
    }
  }

  /** No two hits of one orientation share a start position: each occurrence is reported once. */
  lemma MatchesUnique(probe: string, target: string)
    ensures forall j, k | 0 <= j < |Matches(probe, target)| && 0 <= k < |Matches(probe, target)| ::
      (Matches(probe, target)[j].orientation == Matches(probe, target)[k].orientation &&
       Matches(probe, target)[j].startPos == Matches(probe, target)[k].startPos) ==> j == k
  {
    MatchesOrdered(probe, target);
  }

  /**
   * Soundness: every hit lies inside the target, spans exactly the needle's length, and
   * the upper-cased target between its positions is the needle of its orientation; a
   * reverse-complement hit exists only when the reverse complement is non-empty.
   */
  lemma MatchesSound(probe: string, target: string)
    ensures forall h | h in Matches(probe, target) ::
      1 <= h.startPos && h.startPos - 1 <= h.endPos <= |target| &&
      h.endPos - h.startPos + 1 == |Needle(probe, h.orientation)| &&
      UpperStr(target)[h.startPos - 1..h.endPos] == Needle(probe, h.orientation) &&
      (h.orientation == Reverse ==> ReverseComplement(probe) != "")
  {
    var hay := UpperStr(target);
    var revComp := ReverseComplement(probe);
    var fwd := Occurrences(hay, UpperStr(probe));
    var rev := if revComp != "" then Occurrences(hay, revComp) else [];
    OccurrencesFromSound(hay, UpperStr(probe), 0);
    OccurrencesFromSound(hay, revComp, 0);
    HitsOfSound(hay, UpperStr(probe), fwd, Forward);
    HitsOfSound(hay, revComp, rev, Reverse);
    assert Matches(probe, target) == HitsOf(fwd, |probe|, Forward) + HitsOf(rev, |revComp|, Reverse);
  }

  /**
   * Completeness, forward: index `i` holds an occurrence of the upper-cased probe in the
   * upper-cased target exactly when a forward hit starting at `i + 1` is reported.
   */
  lemma MatchesCompleteForward(probe: string, target: string, i: int)
    ensures OccursAt(UpperStr(target), UpperStr(probe), i) <==>
            Hit(i + 1, i + |probe|, Forward) in Matches(probe, target)
  {
    var hay := UpperStr(target);
    var revComp := ReverseComplement(probe);
    var f := HitsOf(Occurrences(hay, UpperStr(probe)), |probe|, Forward);
    var r := if revComp != "" then HitsOf(Occurrences(hay, revComp), |revComp|, Reverse) else [];
    assert Matches(probe, target) == f + r;
    assert Hit(i + 1, i + |probe|, Forward) !in r;
    HitsOfMember(Occurrences(hay, UpperStr(probe)), |probe|, Forward, i);
    OccurrencesIff(hay, UpperStr(probe), i);
  }

  /**
   * Completeness, reverse complement: when the reverse complement is non-empty, index `i`
   * holds an occurrence of it exactly when a reverse hit starting at `i + 1` is reported.
   */
  lemma MatchesCompleteReverse(probe: string, target: string, i: int)
    requires ReverseComplement(probe) != ""
    ensures OccursAt(UpperStr(target), ReverseComplement(probe), i) <==>
            Hit(i + 1, i + |ReverseComplement(probe)|, Reverse) in Matches(probe, target)
  {
    var hay := UpperStr(target);
    var revComp := ReverseComplement(probe);
    var f := HitsOf(Occurrences(hay, UpperStr(probe)), |probe|, Forward);
    var r := HitsOf(Occurrences(hay, revComp), |revComp|, Reverse);
    assert Matches(probe, target) == f + r;
    assert Hit(i + 1, i + |revComp|, Reverse) !in f;
    HitsOfMember(Occurrences(hay, revComp), |revComp|, Reverse, i);
    OccurrencesIff(hay, revComp, i);
  }

  /** The reverse-complement scan contributes nothing when the reverse complement is empty. */
  lemma NoReverseHitsWithoutComplement(probe: string, target: string)
    requires ReverseComplement(probe) == ""
    ensures |Matches(probe, target)| == ForwardCount(probe, target)
    ensures forall h | h in Matches(probe, target) :: h.orientation == Forward
  {
  }

  /** The matching ignores case: upper-casing probe and target beforehand changes nothing. */
  lemma MatchesIgnoreCase(probe: string, target: string)
    ensures Matches(UpperStr(probe), UpperStr(target)) == Matches(probe, target)
  {
    UpperStrIdempotent(probe);
    UpperStrIdempotent(target);
    ReverseComplementOfUpper(probe);
  }

  /** An empty needle is found at every index from `from` up to and including `|hay|`. */
  lemma {:induction false} EmptyNeedleEverywhere(hay: string, from: nat)
    requires from <= |hay| + 1
    ensures OccurrencesFrom(hay, "", from) == seq(|hay| + 1 - from, j requires 0 <= j < |hay| + 1 - from => from + j)
    decreases |hay| + 1 - from
  {
    if from <= |hay| {
      assert OccursAt(hay, "", from);
      EmptyNeedleEverywhere(hay, from + 1);
    }
  }

  /**
   * The empty probe is not rejected here: `find` returns the cursor itself, so there is
   * one forward hit per index 0..|target|, each with an end one before its start, and no
   * reverse-complement hit.
   */
  lemma EmptyProbeMatches(target: string)
    ensures |Matches("", target)| == |target| + 1
    ensures forall j | 0 <= j < |target| + 1 :: Matches("", target)[j] == Hit(j + 1, j, Forward)
  {
    EmptyNeedleEverywhere(UpperStr(target), 0);
    ReverseComplementEmpty("");
  }

  lemma OccurrencesOfAAInAAAA()
    ensures Occurrences("AAAA", "AA") == [0, 1, 2]
  {
    assert "AAAA"[0..2] == "AA" && "AAAA"[1..3] == "AA" && "AAAA"[2..4] == "AA";
  }

  lemma OccurrencesOfTTInAAAA()
    ensures Occurrences("AAAA", "TT") == []
  {
    forall k ensures !OccursAt("AAAA", "TT", k) {
      if 0 <= k <= 2 {
        assert "AAAA"[k..k + 2][0] == 'A';
      }
    }
    OccurrencesEmptyIff("AAAA", "TT");
  }

  /** Overlapping hits are all reported: "AA" in "AAAA" starts at 1, 2 and 3. */
  lemma OverlapExample()
    ensures Matches("AA", "AAAA") == [Hit(1, 2, Forward), Hit(2, 3, Forward), Hit(3, 4, Forward)]
  {
    OverlapNeedles();
    OccurrencesOfAAInAAAA();
    OccurrencesOfTTInAAAA();
    assert HitsOf([0, 1, 2], 2, Forward) == [Hit(1, 2, Forward), Hit(2, 3, Forward), Hit(3, 4, Forward)];
  }

  lemma OverlapNeedles()
    ensures UpperStr("AA") == "AA" && UpperStr("AAAA") == "AAAA"
    ensures ReverseComplement("AA") == "TT"
  {
    assert UpperStr("AA") == "AA";
    assert "AA"[..1] == "A";
  }

  lemma OccurrencesOfATInATAT()
    ensures Occurrences("ATAT", "AT") == [0, 2]
  {
    assert "ATAT"[0..2] == "AT" && "ATAT"[1..3] == "TA" && "ATAT"[2..4] == "AT";
  }

  /**
   * No deduplication across orientations: "AT" is its own reverse complement, so in
   * "ATAT" it is reported at 1 and 3 in both orientations.
   */
  lemma PalindromeExample()
    ensures Matches("AT", "ATAT") == [Hit(1, 2, Forward), Hit(3, 4, Forward), Hit(1, 2, Reverse), Hit(3, 4, Reverse)]
  {
    PalindromeNeedles();
    OccurrencesOfATInATAT();
    assert HitsOf([0, 2], 2, Forward) == [Hit(1, 2, Forward), Hit(3, 4, Forward)];
    assert HitsOf([0, 2], 2, Reverse) == [Hit(1, 2, Reverse), Hit(3, 4, Reverse)];
  }

  lemma PalindromeNeedles()
    ensures UpperStr("AT") == "AT" && UpperStr("ATAT") == "ATAT"
    ensures ReverseComplement("AT") == "AT"
  {
    assert UpperStr("AT") == "AT";
    assert "AT"[..1] == "A";
  }

  /** A probe absent in both orientations gives no hit at all. */
  lemma NoMatchExample()
    ensures Matches("GGGG", "ATATAT") == []
  {
    NoMatchNeedles();
    NoMatchOccurrences();
  }

  lemma NoMatchNeedles()
    ensures UpperStr("GGGG") == "GGGG" && UpperStr("ATATAT") == "ATATAT"
    ensures ReverseComplement("GGGG") == "CCCC"
  {
    assert UpperStr("GGGG") == "GGGG";
    assert "GGGG"[..3] == "GGG" && "GGG"[..2] == "GG" && "GG"[..1] == "G";
  }

  lemma NoMatchOccurrences()
    ensures Occurrences("ATATAT", "GGGG") == [] && Occurrences("ATATAT", "CCCC") == []
  {
    forall k ensures !OccursAt("ATATAT", "GGGG", k) && !OccursAt("ATATAT", "CCCC", k) {
      if 0 <= k <= 2 {
        assert "ATATAT"[k..k + 4][0] == "ATATAT"[k];
      }
    }
    OccurrencesEmptyIff("ATATAT", "GGGG");
    OccurrencesEmptyIff("ATATAT", "CCCC");
  }

  /** A lower-case probe finds its upper-case occurrence. */
  lemma CaseInsensitiveExample()
    ensures Hit(1, 4, Forward) in Matches("atgc", "ATGC")
  {
    assert UpperStr("atgc") == "ATGC" && UpperStr("ATGC") == "ATGC";
    assert OccursAt("ATGC", "ATGC", 0);
    MatchesCompleteForward("atgc", "ATGC", 0);
  }
}
