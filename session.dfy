/**
 * The application object's state that the matching engine touches: the loaded probe
 * list and the result list, with the two operations that rebuild them.
 */
module Session {
  import opened Nucleotides
  import opened Search
  import opened Records

  /** How loading a probe file ends; every outcome but the last two is reported as an error. */
  datatype LoadOutcome =
    | EmptyFile        // no row at all
    | ReadFailed       // the first row has no field, so the header test raises
    | NoProbeData      // no row was accepted or rejected
    | NoValidProbes    // only rejected rows
    | LoadedWithRejects
    | Loaded

  /** How a search ends; only `Searched` replaces the result list. */
  datatype SearchOutcome = EmptyTarget | NoProbes | InvalidTarget | Searched

  /** The outcome reported for a file whose data rows classify as `c`. */
  function LoadOutcomeOf(c: Classification): LoadOutcome
  {
    if c.valid == [] && c.invalid == [] then NoProbeData
    else if c.valid == [] then NoValidProbes
    else if c.invalid == [] then Loaded
    else LoadedWithRejects
  }

  class ProbeMatcher {
    var probes: seq<Probe>
    var matches: seq<MatchRecord>

    /** Every probe in the list was accepted by the row classification. */
    ghost predicate Valid()
      reads this
    {
      forall p | p in probes :: WellFormedProbe(p)
    }

    constructor ()
      ensures Valid()
      ensures probes == [] && matches == []
    {
      probes := [];
      matches := [];
    }

    /**
     * `upload_probe_csv` once the file has been read into `rows`: the probe list is
     * rebuilt from the data rows, the rejected rows are returned, and the outcome says
     * which message the user sees. The probe list is emptied first, so it is empty after
     * every failed load.
     */
    method LoadProbes(rows: seq<seq<string>>) returns (outcome: LoadOutcome, invalid: seq<(string, string)>)
      modifies this`probes
      ensures Valid()
      ensures rows == [] ==> outcome == EmptyFile && probes == [] && invalid == []
      ensures rows != [] && rows[0] == [] ==> outcome == ReadFailed && probes == [] && invalid == []
      ensures rows != [] && rows[0] != [] ==>
        probes == ClassifyRows(DataRows(rows)).valid &&
        invalid == ClassifyRows(DataRows(rows)).invalid &&
        outcome == LoadOutcomeOf(ClassifyRows(DataRows(rows)))
    {
      probes := [];
      invalid := [];
      if rows == [] {
        outcome := EmptyFile;
        return;
      }
      var first := rows[0];
      if first == [] {
        outcome := ReadFailed;
        return;
      }
      // A header row is skipped; any other first row is classified like the rows after it.
      var from := if LooksLikeHeader(first) then 1 else 0;
      assert rows[from..] == DataRows(rows);
      invalid := AddDataRows(rows[from..]);
      ClassifyRowsSpec(DataRows(rows));
      outcome := LoadOutcomeOf(Classification(probes, invalid));
    }

    /**
     * The row loop of `upload_probe_csv`: each row is classified in file order, an
     * accepted probe is appended to the probe list and a rejected row to the returned list.
     */
    method AddDataRows(data: seq<seq<string>>) returns (invalid: seq<(string, string)>)
      modifies this`probes
      ensures probes == old(probes) + ClassifyRows(data).valid
      ensures invalid == ClassifyRows(data).invalid
    {
      invalid := [];
      ghost var before := probes;
      ghost var c := Classification([], []);
      var i := 0;
      while i < |data|
        invariant 0 <= i <= |data|
        invariant c == ClassifyRows(data[..i])
        invariant probes == before + c.valid && invalid == c.invalid
      {
        var row := data[i];
        if |row| >= 2 && Strip(row[0]) != "" && Strip(row[1]) != "" {
          var name := Strip(row[0]);
          var sequence := UpperStr(Strip(row[1]));
          if IsValidSequence(sequence) {
            probes := probes + [Probe(name, sequence)];
          } else {
            invalid := invalid + [(name, sequence)];
          }
        }
        ClassifyRowsStep(data, i);
        c := AddVerdict(c, ClassifyRow(row));
        i := i + 1;
      }
      assert data[..i] == data;
    }

    /**
     * The inner loop of `search_matches`: one result row per hit, in hit order, each
     * carrying the probe name and the upper-cased target text under the hit.
     */
    method AppendRecords(name: string, target: string, hits: seq<Hit>)
      modifies this`matches
      ensures matches == old(matches) + RecordsOf(name, target, hits)
    {
      ghost var before := matches;
      var j := 0;
      while j < |hits|
        invariant 0 <= j <= |hits|
        invariant matches == before + RecordsOf(name, target, hits[..j])
      {
        var h := hits[j];
        var matchedSeq := UpperStr(PySlice(target, h.startPos - 1, h.endPos));
        RecordsOfSnoc(name, target, hits, j);
        matches := matches + [MatchRecord(name, h.orientation, h.startPos, h.endPos, matchedSeq)];
        j := j + 1;
      }
      assert hits[..j] == hits;
    }

    /**
     * `search_matches` on the text of the target box: the text is normalised, the empty
     * target, the empty probe list and an invalid target are refused without touching the
     * results, and otherwise the result list is rebuilt probe by probe and hit by hit.
     */
    method SearchMatches(text: string) returns (outcome: SearchOutcome)
      requires Valid()
      modifies this`matches
      ensures Valid()
      ensures var target := NormalizeTarget(text);
        outcome == (if target == "" then EmptyTarget
                    else if probes == [] then NoProbes
                    else if !IsValidSequence(target) then InvalidTarget
                    else Searched)
      ensures outcome == Searched ==> matches == Assemble(probes, NormalizeTarget(text))
      ensures outcome != Searched ==> matches == old(matches)
      ensures outcome == Searched ==> forall r | r in matches :: exists p | p in probes ::
        RecordAgrees(r, p, NormalizeTarget(text)) && (r.orientation == Forward ==> r.matchedSeq == p.sequence)
    {
      var target := RemoveWhitespace(Strip(text));
      if target == "" {
        return EmptyTarget;
      }
      if probes == [] {
        return NoProbes;
      }
      if !IsValidSequence(target) {
        return InvalidTarget;
      }
      matches := [];
      var i := 0;
      while i < |probes|
        invariant 0 <= i <= |probes|
        invariant matches == Assemble(probes[..i], target)
      {
        var hits := FindMatches(probes[i].sequence, target);
        AppendRecords(probes[i].name, target, hits);
        AssembleSnoc(probes, i, target);
        i := i + 1;
      }
      assert probes[..i] == probes;
      AssembleAgreesWellFormed(probes, target);
      outcome := Searched;
    }
  }
}
