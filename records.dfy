/**
 * What the application does around the search: normalising the target text, turning
 * hits into match records, and sorting the rows of a probe file into valid probes and
 * rejected ones.
 */
module Records {
  import opened Nucleotides
  import opened Search

  /** Python's `str.isspace` for one character: the characters `strip` and `split` remove. */
  predicate IsSpace(c: char)
  {
    var n := c as int;
    (9 <= n <= 13) || (28 <= n <= 32) || n == 0x85 || n == 0xA0 || n == 0x1680 ||
    (0x2000 <= n <= 0x200A) || n == 0x2028 || n == 0x2029 || n == 0x202F || n == 0x205F || n == 0x3000
  }

  /** Drops the leading whitespace of `s`. */
  function TrimStart(s: string): string
  {
    if s != [] && IsSpace(s[0]) then TrimStart(s[1..]) else s
  }

  /** Drops the trailing whitespace of `s`. */
  function TrimEnd(s: string): string
  {
    if s != [] && IsSpace(s[|s| - 1]) then TrimEnd(s[..|s| - 1]) else s
  }

  /** Python's `s.strip()`. */
  function Strip(s: string): string
  {
    TrimEnd(TrimStart(s))
  }

  /** `TrimStart` keeps a suffix of `s`, drops only whitespace, and stops at the first other character. */
  lemma {:induction false} TrimStartSpec(s: string)
    ensures |TrimStart(s)| <= |s| && TrimStart(s) == s[|s| - |TrimStart(s)|..]
    ensures forall i | 0 <= i < |s| - |TrimStart(s)| :: IsSpace(s[i])
    ensures TrimStart(s) == [] || !IsSpace(TrimStart(s)[0])
  {
    if s != [] && IsSpace(s[0]) {
      TrimStartSpec(s[1..]);
      assert s[1..][|s| - 1 - |TrimStart(s)|..] == s[|s| - |TrimStart(s)|..];
      forall i | 1 <= i < |s| - |TrimStart(s)|
        ensures IsSpace(s[i])
      {
        assert s[i] == s[1..][i - 1];
      }
    }
  }

  /** `TrimEnd` keeps a prefix of `s`, drops only whitespace, and stops at the last other character. */
  lemma {:induction false} TrimEndSpec(s: string)
    ensures |TrimEnd(s)| <= |s| && TrimEnd(s) == s[..|TrimEnd(s)|]
    ensures forall i | |TrimEnd(s)| <= i < |s| :: IsSpace(s[i])
    ensures TrimEnd(s) == [] || !IsSpace(TrimEnd(s)[|TrimEnd(s)| - 1])
  {
    if s != [] && IsSpace(s[|s| - 1]) {
      TrimEndSpec(s[..|s| - 1]);
      assert s[..|s| - 1][..|TrimEnd(s)|] == s[..|TrimEnd(s)|];
      forall i | |TrimEnd(s)| <= i < |s| - 1
        ensures IsSpace(s[i])
      {
        assert s[i] == s[..|s| - 1][i];
      }
    }
  }

  /** `strip()` returns a contiguous piece of `s` that neither starts nor ends with whitespace. */
  lemma StripSpec(s: string)
    ensures exists lo, hi | 0 <= lo <= hi <= |s| :: Strip(s) == s[lo..hi]
    ensures Strip(s) == [] || (!IsSpace(Strip(s)[0]) && !IsSpace(Strip(s)[|Strip(s)| - 1]))
  {
    var front := TrimStart(s);
    TrimStartSpec(s);
    TrimEndSpec(front);
    var lo := |s| - |front|;
    var hi := lo + |Strip(s)|;
    assert Strip(s) == front[..|Strip(s)|];
    assert Strip(s) == s[lo..hi];
    if Strip(s) != [] {
      assert Strip(s)[0] == front[0];
    }
  }

  /** `''.join(s.split())`: every non-whitespace character of `s`, in order. */
  function RemoveWhitespace(s: string): (r: string)
    ensures forall i | 0 <= i < |r| :: !IsSpace(r[i])
    ensures |r| <= |s|
  {
    if s == [] then []
    else (if IsSpace(s[0]) then [] else [s[0]]) + RemoveWhitespace(s[1..])
  }

  /** The target as the search sees it: stripped, then with all inner whitespace removed. */
  function NormalizeTarget(text: string): string
  {
    RemoveWhitespace(Strip(text))
  }

  /** Removing whitespace distributes over concatenation. */
  lemma {:induction false} RemoveWhitespaceAppend(a: string, b: string)
    ensures RemoveWhitespace(a + b) == RemoveWhitespace(a) + RemoveWhitespace(b)
  {
    if a != [] {
      var head := if IsSpace(a[0]) then [] else [a[0]];
      assert (a + b)[0] == a[0] && (a + b)[1..] == a[1..] + b;
      assert RemoveWhitespace(a + b) == head + RemoveWhitespace(a[1..] + b);
      assert RemoveWhitespace(a) == head + RemoveWhitespace(a[1..]);
      RemoveWhitespaceAppend(a[1..], b);
      assert head + (RemoveWhitespace(a[1..]) + RemoveWhitespace(b)) ==
             (head + RemoveWhitespace(a[1..])) + RemoveWhitespace(b);
    } else {
      assert a + b == b;
    }
  }

  /** Text made only of whitespace disappears. */
  lemma {:induction false} RemoveWhitespaceOfSpaces(s: string)
    requires forall i | 0 <= i < |s| :: IsSpace(s[i])
    ensures RemoveWhitespace(s) == []
  {
    if s != [] {
      RemoveWhitespaceOfSpaces(s[1..]);
    }
  }

  /** Text without whitespace is left as it is. */
  lemma {:induction false} RemoveWhitespaceKeepsText(s: string)
    requires forall i | 0 <= i < |s| :: !IsSpace(s[i])
    ensures RemoveWhitespace(s) == s
  {
    if s != [] {
      RemoveWhitespaceKeepsText(s[1..]);
    }
  }

  /** Leading whitespace makes no difference once all whitespace is removed. */
  lemma RemoveWhitespaceTrimStart(s: string)
    ensures RemoveWhitespace(TrimStart(s)) == RemoveWhitespace(s)
  {
    var front := TrimStart(s);
    TrimStartSpec(s);
    var lead := s[..|s| - |front|];
    assert s == lead + front;
    RemoveWhitespaceOfSpaces(lead);
    RemoveWhitespaceAppend(lead, front);
  }

  /** Trailing whitespace makes no difference once all whitespace is removed. */
  lemma RemoveWhitespaceTrimEnd(s: string)
    ensures RemoveWhitespace(TrimEnd(s)) == RemoveWhitespace(s)
  {
    var core := TrimEnd(s);
    TrimEndSpec(s);
    var tail := s[|core|..];
    assert s == core + tail;
    RemoveWhitespaceOfSpaces(tail);
    RemoveWhitespaceAppend(core, tail);
  }

  /**
   * The `strip()` before the split-and-join changes nothing: the normalised target is
   * the input with every whitespace character removed and nothing else.
   */
  lemma NormalizeTargetRemovesOnlyWhitespace(text: string)
    ensures NormalizeTarget(text) == RemoveWhitespace(text)
  {
    RemoveWhitespaceTrimStart(text);
    RemoveWhitespaceTrimEnd(TrimStart(text));
  }

  /** Python's reading of a non-negative or negative slice bound against a length `n`. */
  function PyIndex(i: int, n: nat): (k: nat)
    ensures k <= n
    ensures 0 <= i <= n ==> k == i
  {
    if i < 0 then (if i + n < 0 then 0 else i + n)
    else if i > n then n
    else i
  }

  /** Python's `s[i:j]`: bounds are clamped, and a reversed range gives the empty string. */
  function PySlice(s: string, i: int, j: int): (r: string)
    ensures 0 <= i <= j <= |s| ==> r == s[i..j]
  {
    var lo := PyIndex(i, |s|);
    var hi := PyIndex(j, |s|);
    if hi <= lo then [] else s[lo..hi]
  }

  /** A probe as loaded from the probe file. */
  datatype Probe = Probe(name: string, sequence: string)

  /** One row of the results table. */
  datatype MatchRecord = MatchRecord(
    probeName: string,
    orientation: Orientation,
    startPos: int,
    endPos: int,
    matchedSeq: string)

  /** The record for one hit: the matched text is the target slice, upper-cased. */
  function RecordOf(name: string, target: string, h: Hit): MatchRecord
  {
    MatchRecord(name, h.orientation, h.startPos, h.endPos, UpperStr(PySlice(target, h.startPos - 1, h.endPos)))
  }

  /** The records for the hits `hits` of the probe called `name`, in hit order. */
  function RecordsOf(name: string, target: string, hits: seq<Hit>): seq<MatchRecord>
  {
    seq(|hits|, k requires 0 <= k < |hits| => RecordOf(name, target, hits[k]))
  }

  function RecordsFor(probe: Probe, target: string): seq<MatchRecord>
  {
    RecordsOf(probe.name, target, Matches(probe.sequence, target))
  }

  /** The records of a whole search: each probe's records in turn, in probe-list order. */
  function Assemble(probes: seq<Probe>, target: string): seq<MatchRecord>
  {
    Flatten(RecordGroups(probes, target))
  }

  /** Each probe's records, one group per probe, in probe-list order. */
  function RecordGroups(probes: seq<Probe>, target: string): seq<seq<MatchRecord>>
  {
    seq(|probes|, i requires 0 <= i < |probes| => RecordsFor(probes[i], target))
  }

  /** The groups one after the other. */
  function Flatten(groups: seq<seq<MatchRecord>>): seq<MatchRecord>
  {
    if groups == [] then []
    else Flatten(groups[..|groups| - 1]) + groups[|groups| - 1]
  }

  lemma {:induction false} FlattenAppend(a: seq<seq<MatchRecord>>, b: seq<seq<MatchRecord>>)
    ensures Flatten(a + b) == Flatten(a) + Flatten(b)
    decreases |b|
  {
    if b == [] {
      assert a + b == a;
    } else {
      var init := b[..|b| - 1];
      assert (a + b)[..|a + b| - 1] == a + init;
      assert (a + b)[|a + b| - 1] == b[|b| - 1];
      FlattenAppend(a, init);
    }
  }

  /** A record of the flattened groups comes from one of the groups. */
  lemma {:induction false} FlattenMember(groups: seq<seq<MatchRecord>>, r: MatchRecord)
    requires r in Flatten(groups)
    ensures exists j | 0 <= j < |groups| :: r in groups[j]
  {
    var init := groups[..|groups| - 1];
    if r !in groups[|groups| - 1] {
      FlattenMember(init, r);
      var j :| 0 <= j < |init| && r in init[j];
      assert r in groups[j];
    }
  }

  lemma RecordsOfSnoc(name: string, target: string, hits: seq<Hit>, j: nat)
    requires j < |hits|
    ensures RecordsOf(name, target, hits[..j + 1]) == RecordsOf(name, target, hits[..j]) + [RecordOf(name, target, hits[j])]
  {
  }

  lemma AssembleSnoc(probes: seq<Probe>, i: nat, target: string)
    requires i < |probes|
    ensures Assemble(probes[..i + 1], target) == Assemble(probes[..i], target) + RecordsFor(probes[i], target)
  {
    var groups := RecordGroups(probes[..i + 1], target);
    assert groups[..i] == RecordGroups(probes[..i], target);
    assert groups[i] == RecordsFor(probes[i], target);
  }

  /**
   * A record is consistent with the probe it names: it lies inside the target, its
   * length arithmetic is that of 1-based inclusive positions, its text is the target
   * slice, and that text is the probe (forward) or its reverse complement.
   */
  predicate RecordAgrees(r: MatchRecord, p: Probe, target: string)
  {
    r.probeName == p.name &&
    1 <= r.startPos && r.startPos - 1 <= r.endPos <= |target| &&
    r.endPos - r.startPos + 1 == |r.matchedSeq| &&
    r.matchedSeq == UpperStr(target[r.startPos - 1..r.endPos]) &&
    r.matchedSeq == Needle(p.sequence, r.orientation)
  }

  /** Every record built for a probe agrees with that probe. */
  lemma RecordsForAgree(p: Probe, target: string)
    ensures forall r | r in RecordsFor(p, target) :: RecordAgrees(r, p, target)
  {
    var hits := Matches(p.sequence, target);
    forall r | r in RecordsFor(p, target)
      ensures RecordAgrees(r, p, target)
    {
      var k :| 0 <= k < |hits| && RecordsFor(p, target)[k] == r;
      RecordOfAgrees(p, target, hits[k]);
    }
  }

  lemma RecordOfAgrees(p: Probe, target: string, h: Hit)
    requires h in Matches(p.sequence, target)
    ensures RecordAgrees(RecordOf(p.name, target, h), p, target)
  {
    MatchesSound(p.sequence, target);
    assert 1 <= h.startPos && h.startPos - 1 <= h.endPos <= |target|;
    UpperSlice(target, h.startPos - 1, h.endPos);
  }

  /** Every record of a search agrees with some probe of the list, the one it names. */
  lemma AssembleAgrees(probes: seq<Probe>, target: string)
    ensures forall r | r in Assemble(probes, target) :: exists p | p in probes :: RecordAgrees(r, p, target)
  {
    var groups := RecordGroups(probes, target);
    forall r | r in Assemble(probes, target)
      ensures exists p | p in probes :: RecordAgrees(r, p, target)
    {
      FlattenMember(groups, r);
      var j :| 0 <= j < |groups| && r in groups[j];
      RecordsForAgree(probes[j], target);
      assert probes[j] in probes && RecordAgrees(r, probes[j], target);
    }
  }

  /**
   * When every probe is well formed, every record of a search names a probe of the list
   * whose sequence (forward) or reverse complement (reverse) is exactly the record's text.
   */
  lemma AssembleAgreesWellFormed(probes: seq<Probe>, target: string)
    requires forall p | p in probes :: WellFormedProbe(p)
    ensures forall r | r in Assemble(probes, target) :: exists p | p in probes ::
      RecordAgrees(r, p, target) && (r.orientation == Forward ==> r.matchedSeq == p.sequence)
  {
    AssembleAgrees(probes, target);
    forall r | r in Assemble(probes, target)
      ensures exists p | p in probes ::
        RecordAgrees(r, p, target) && (r.orientation == Forward ==> r.matchedSeq == p.sequence)
    {
      var p :| p in probes && RecordAgrees(r, p, target);
      if r.orientation == Forward {
        ForwardRecordIsProbe(r, p, target);
      }
    }
  }

  /** Records come grouped by probe in list order: searching `ps + qs` is searching `ps`, then `qs`. */
  lemma AssembleAppend(ps: seq<Probe>, qs: seq<Probe>, target: string)
    ensures Assemble(ps + qs, target) == Assemble(ps, target) + Assemble(qs, target)
  {
    assert RecordGroups(ps + qs, target) == RecordGroups(ps, target) + RecordGroups(qs, target);
    FlattenAppend(RecordGroups(ps, target), RecordGroups(qs, target));
  }

  /** A probe that is a well-formed member of the probe list: named, non-empty, valid, upper-case. */
  predicate WellFormedProbe(p: Probe)
  {
    p.name != "" && p.sequence != "" && IsValidSequence(p.sequence) && UpperStr(p.sequence) == p.sequence
  }

  /** For a loaded probe, a forward record's text is exactly the probe's sequence. */
  lemma ForwardRecordIsProbe(r: MatchRecord, p: Probe, target: string)
    requires WellFormedProbe(p) && RecordAgrees(r, p, target) && r.orientation == Forward
    ensures r.matchedSeq == p.sequence
  {
  }

  /** What becomes of one data row of the probe file. */
  datatype RowVerdict = Skipped | Accepted(probe: Probe) | Rejected(name: string, sequence: string)

  /** The verdict of `upload_probe_csv` on one data row. */
  function ClassifyRow(row: seq<string>): RowVerdict
  {
    if |row| < 2 || Strip(row[0]) == "" || Strip(row[1]) == "" then Skipped
    else
      var name := Strip(row[0]);
      var sequence := UpperStr(Strip(row[1]));
      if IsValidSequence(sequence) then Accepted(Probe(name, sequence)) else Rejected(name, sequence)
  }

  /**
   * A row with at least two fields whose stripped name and sequence are non-empty is
   * accepted when its upper-cased sequence is valid and rejected otherwise; any other
   * row is skipped. What is kept is the stripped name and the stripped, upper-cased
   * sequence, so an accepted row always gives a well-formed probe.
   */
  lemma ClassifyRowSpec(row: seq<string>)
    ensures ClassifyRow(row).Skipped? <==> (|row| < 2 || Strip(row[0]) == "" || Strip(row[1]) == "")
    ensures ClassifyRow(row).Accepted? ==>
      WellFormedProbe(ClassifyRow(row).probe) &&
      ClassifyRow(row).probe == Probe(Strip(row[0]), UpperStr(Strip(row[1])))
    ensures ClassifyRow(row).Rejected? ==>
      ClassifyRow(row).name == Strip(row[0]) && ClassifyRow(row).name != "" &&
      ClassifyRow(row).sequence == UpperStr(Strip(row[1])) && ClassifyRow(row).sequence != "" &&
      !IsValidSequence(ClassifyRow(row).sequence)
  {
    if !ClassifyRow(row).Skipped? {
      UpperStrIdempotent(Strip(row[1]));
    }
  }

  /** The probe list and the list of rejected `(name, sequence)` pairs. */
  datatype Classification = Classification(valid: seq<Probe>, invalid: seq<(string, string)>)

  function AddVerdict(c: Classification, v: RowVerdict): Classification
  {
    match v
    case Skipped => c
    case Accepted(p) => c.(valid := c.valid + [p])
    case Rejected(name, sequence) => c.(invalid := c.invalid + [(name, sequence)])
  }

  /** The rows in file order sorted into valid probes and rejected pairs. */
  function ClassifyRows(rows: seq<seq<string>>): Classification
  {
    if rows == [] then Classification([], [])
    else AddVerdict(ClassifyRows(rows[..|rows| - 1]), ClassifyRow(rows[|rows| - 1]))
  }

  /**
   * Every valid probe is well formed, every rejected pair has a name and a non-empty
   * invalid sequence, and no row lands in both lists.
   */
  lemma {:induction false} ClassifyRowsSpec(rows: seq<seq<string>>)
    ensures forall p | p in ClassifyRows(rows).valid :: WellFormedProbe(p)
    ensures forall e | e in ClassifyRows(rows).invalid :: e.0 != "" && e.1 != "" && !IsValidSequence(e.1)
    ensures |ClassifyRows(rows).valid| + |ClassifyRows(rows).invalid| <= |rows|
  {
    if rows != [] {
      ClassifyRowsSpec(rows[..|rows| - 1]);
      ClassifyRowSpec(rows[|rows| - 1]);
    }
  }

  /** The lists of `a` followed by those of `b`. */
  function Join(a: Classification, b: Classification): Classification
  {
    Classification(a.valid + b.valid, a.invalid + b.invalid)
  }

  lemma AddVerdictJoin(a: Classification, b: Classification, v: RowVerdict)
    ensures AddVerdict(Join(a, b), v) == Join(a, AddVerdict(b, v))
  {
    match v
    case Skipped =>
    case Accepted(p) =>
      assert (a.valid + b.valid) + [p] == a.valid + (b.valid + [p]);
    case Rejected(n, q) =>
      assert (a.invalid + b.invalid) + [(n, q)] == a.invalid + (b.invalid + [(n, q)]);
  }

  lemma ClassifyRowsSnoc(rows: seq<seq<string>>, row: seq<string>)
    ensures ClassifyRows(rows + [row]) == AddVerdict(ClassifyRows(rows), ClassifyRow(row))
  {
    assert (rows + [row])[..|rows|] == rows;
  }

  /** The classification of a prefix of `data` grows by the verdict on the next row. */
  lemma ClassifyRowsStep(data: seq<seq<string>>, i: nat)
    requires i < |data|
    ensures ClassifyRows(data[..i + 1]) == AddVerdict(ClassifyRows(data[..i]), ClassifyRow(data[i]))
  {
    assert data[..i + 1] == data[..i] + [data[i]];
    ClassifyRowsSnoc(data[..i], data[i]);
  }

  /**
   * Rows are classified one by one and in file order: classifying `rows + more` gives the
   * results for `rows` followed by those for `more`, in both lists.
   */
  lemma {:induction false} ClassifyRowsAppend(rows: seq<seq<string>>, more: seq<seq<string>>)
    ensures ClassifyRows(rows + more) == Join(ClassifyRows(rows), ClassifyRows(more))
    decreases |more|
  {
    if more == [] {
      assert rows + more == rows;
    } else {
      var init := more[..|more| - 1];
      var row := more[|more| - 1];
      assert rows + more == (rows + init) + [row];
      assert more == init + [row];
      ClassifyRowsSnoc(rows + init, row);
      ClassifyRowsSnoc(init, row);
      ClassifyRowsAppend(rows, init);
      AddVerdictJoin(ClassifyRows(rows), ClassifyRows(init), ClassifyRow(row));
    }
  }

  /** The keywords whose presence in the first row's first two fields marks it as a header. */
  const HeaderKeywords: seq<string> := ["probe", "name", "sequence", "id", "label"]

  /** ASCII case folding to lower case. */
  function Lower(c: char): char
  {
    if 'A' <= c <= 'Z' then (c as int + 32) as char else c
  }

  function LowerStr(s: string): string
  {
    seq(|s|, i requires 0 <= i < |s| => Lower(s[i]))
  }

  /**
   * The header heuristic: some keyword occurs (as `in` finds it) in the lower-cased
   * first field, or in the lower-cased second field when there is one.
   */
  predicate LooksLikeHeader(row: seq<string>)
    requires row != []
  {
    exists kw | kw in HeaderKeywords ::
      Find(LowerStr(row[0]), kw, 0) != -1 || (|row| > 1 && Find(LowerStr(row[1]), kw, 0) != -1)
  }

  /** The heuristic tests plain substring containment of the keywords in the lower-cased fields. */
  lemma LooksLikeHeaderSpec(row: seq<string>)
    requires row != []
    ensures LooksLikeHeader(row) <==>
      exists kw, k | kw in HeaderKeywords ::
        OccursAt(LowerStr(row[0]), kw, k) || (|row| > 1 && OccursAt(LowerStr(row[1]), kw, k))
  {
    forall kw | kw in HeaderKeywords
      ensures Find(LowerStr(row[0]), kw, 0) != -1 <==> exists k :: OccursAt(LowerStr(row[0]), kw, k)
      ensures |row| > 1 ==> (Find(LowerStr(row[1]), kw, 0) != -1 <==> exists k :: OccursAt(LowerStr(row[1]), kw, k))
    {
      FindFromStartIsContainment(LowerStr(row[0]), kw);
      if |row| > 1 {
        FindFromStartIsContainment(LowerStr(row[1]), kw);
      }
    }
  }

  /** The rows that carry data: all of them, or all but the first when it looks like a header. */
  function DataRows(rows: seq<seq<string>>): (data: seq<seq<string>>)
    requires rows != [] && rows[0] != []
    ensures data == rows || data == rows[1..]
    ensures data == rows[1..] <==> LooksLikeHeader(rows[0])
  {
    if LooksLikeHeader(rows[0]) then rows[1..] else rows
  }

  /** A header row is recognised, and so is a data row whose name happens to contain a keyword. */
  lemma HeaderExamples()
    ensures LooksLikeHeader(["Name", "Sequence"])
    ensures LooksLikeHeader(["probe_7", "ATGC"])
    ensures !LooksLikeHeader(["P7", "ATGC"])
  {
    assert "name" in HeaderKeywords && "probe" in HeaderKeywords;
    assert LowerStr("Name") == "name";
    assert "name"[0..4] == "name";
    assert Find("name", "name", 0) == 0;
    assert LowerStr("probe_7") == "probe_7";
    assert "probe_7"[0..5] == "probe";
    assert Find("probe_7", "probe", 0) == 0;
    assert LowerStr("P7") == "p7";
    assert LowerStr("ATGC") == "atgc";
    assert "p7"[0..2] == "p7";
    assert "atgc"[0..2] == "at" && "atgc"[1..3] == "tg" && "atgc"[2..4] == "gc" && "atgc"[0..4] == "atgc";
    assert Find("p7", "id", 1) == -1 && Find("atgc", "id", 3) == -1 && Find("atgc", "name", 1) == -1;
    forall kw | kw in HeaderKeywords
      ensures Find("p7", kw, 0) == -1 && Find("atgc", kw, 0) == -1
    {
      assert kw == "probe" || kw == "name" || kw == "sequence" || kw == "id" || kw == "label";
    }
  }
}
