/** Nucleotide alphabet, case folding and the reverse complement of a probe. */
module Nucleotides {

  datatype Option<T> = None | Some(value: T)

  /** The characters `is_valid_sequence` accepts: the four bases in either case. */
  const ValidBases: set<char> := {'A', 'T', 'G', 'C', 'a', 't', 'g', 'c'}

  /** Watson-Crick pairing table of `reverse_complement`; its keys are upper-case only. */
  const Complement: map<char, char> := map['A' := 'T', 'T' := 'A', 'G' := 'C', 'C' := 'G']

  /** ASCII case folding to upper case, the part of `str.upper` that matters for DNA text. */
  function Upper(c: char): char
  {
    if 'a' <= c <= 'z' then (c as int - 32) as char else c
  }

  function UpperStr(s: string): string
  {
    seq(|s|, i requires 0 <= i < |s| => Upper(s[i]))
  }

  /** Every character of `s` is in `ValidBases`, checked from the first character on. */
  function IsValidSequence(s: string): (valid: bool)
    ensures valid <==> forall i | 0 <= i < |s| :: s[i] in ValidBases
  {
    s == [] || (s[0] in ValidBases && IsValidSequence(s[1..]))
  }

  /**
   * Complements the bases of `u` walking from its last character to its first, as
   * `reversed(...)` feeds them to the table lookup; `None` when some character has
   * no entry in the table (the `KeyError` path).
   */
  function ComplementReversed(u: string): (r: Option<string>)
    ensures r.Some? <==> forall i | 0 <= i < |u| :: u[i] in Complement
    ensures r.Some? ==> |r.value| == |u|
    ensures r.Some? ==> forall i | 0 <= i < |u| :: u[|u| - 1 - i] in Complement && r.value[i] == Complement[u[|u| - 1 - i]]
  {
    if u == [] then Some("")
    else
      var last := u[|u| - 1];
      if last !in Complement then None
      else match ComplementReversed(u[..|u| - 1])
        case None => None
        case Some(rest) => Some([Complement[last]] + rest)
  }

  /** `reverse_complement`: upper-case, reverse, complement; "" if a base is not in the table. */
  function ReverseComplement(s: string): string
  {
    match ComplementReversed(UpperStr(s))
    case Some(r) => r
    case None => ""
  }

  lemma UpperStrIdempotent(s: string)
    ensures UpperStr(UpperStr(s)) == UpperStr(s)
  {
  }

  lemma UpperSlice(s: string, i: int, j: int)
    requires 0 <= i <= j <= |s|
    ensures UpperStr(s[i..j]) == UpperStr(s)[i..j]
  {
  }

  /** A character folds onto a key of the complement table exactly when it is a valid base. */
  lemma UpperIsBase(c: char)
    ensures Upper(c) in Complement <==> c in ValidBases
  {
  }

  /** The validator agrees with the table lookup of `reverse_complement` after case folding. */
  lemma {:induction false} ValidIffTableCovers(s: string)
    ensures IsValidSequence(s) <==> forall i | 0 <= i < |s| :: UpperStr(s)[i] in Complement
  {
    forall i | 0 <= i < |s|
      ensures UpperStr(s)[i] in Complement <==> s[i] in ValidBases
    {
      UpperIsBase(s[i]);
    }
  }

  /**
   * For a valid sequence the reverse complement has the same length and position `i`
   * holds the complement of the upper-cased base at the mirrored position.
   */
  lemma ReverseComplementOfValid(s: string)
    requires IsValidSequence(s)
    ensures |ReverseComplement(s)| == |s|
    ensures forall i | 0 <= i < |s| ::
      UpperStr(s)[|s| - 1 - i] in Complement &&
      ReverseComplement(s)[i] == Complement[UpperStr(s)[|s| - 1 - i]]
  {
    ValidIffTableCovers(s);
  }

  /** The reverse complement is empty exactly for the empty sequence and for invalid text. */
  lemma ReverseComplementEmpty(s: string)
    ensures ReverseComplement(s) == "" <==> s == "" || !IsValidSequence(s)
  {
    ValidIffTableCovers(s);
    if IsValidSequence(s) {
      ReverseComplementOfValid(s);
    }
  }

  /** What `reverse_complement` returns is itself an upper-case valid sequence. */
  lemma ReverseComplementIsValid(s: string)
    ensures IsValidSequence(ReverseComplement(s))
    ensures UpperStr(ReverseComplement(s)) == ReverseComplement(s)
    ensures forall i | 0 <= i < |ReverseComplement(s)| :: ReverseComplement(s)[i] in Complement
  {
    var r := ReverseComplement(s);
    var u := UpperStr(s);
    if ComplementReversed(u).Some? {
      forall i | 0 <= i < |r|
        ensures r[i] in Complement && r[i] in ValidBases && Upper(r[i]) == r[i]
      {
        assert r[i] == Complement[u[|u| - 1 - i]];
      }
    }
  }

  /** Complementing a base twice gives the base back. */
  lemma ComplementTwice(c: char)
    requires c in Complement
    ensures Complement[c] in Complement && Complement[Complement[c]] == c
  {
  }

  /** Applying `reverse_complement` twice to a valid sequence gives back its upper-case form. */
  lemma {:induction false} ReverseComplementInvolution(s: string)
    requires IsValidSequence(s)
    ensures ReverseComplement(ReverseComplement(s)) == UpperStr(s)
  {
    var r := ReverseComplement(s);
    var u := UpperStr(s);
    var n := |s|;
    ReverseComplementOfValid(s);
    ReverseComplementIsValid(s);
    ReverseComplementOfValid(r);
    var rr := ReverseComplement(r);
    assert UpperStr(r) == r;
    forall i | 0 <= i < n
      ensures rr[i] == u[i]
    {
      var j := n - 1 - i;
      assert rr[i] == Complement[r[j]];
      assert r[j] == Complement[u[n - 1 - j]];
      assert n - 1 - j == i;
      ComplementTwice(u[i]);
    }
  }

  /** Upper-casing the probe first does not change its reverse complement. */
  lemma ReverseComplementOfUpper(s: string)
    ensures ReverseComplement(UpperStr(s)) == ReverseComplement(s)
  {
    UpperStrIdempotent(s);
  }

  /** "ATGC" reverse-complements to "GCAT" in either case; a non-base character gives "". */
  lemma ReverseComplementExample()
    ensures ReverseComplement("ATGC") == "GCAT"
    ensures ReverseComplement("atgc") == "GCAT"
    ensures ReverseComplement("ATXG") == ""
  {
    assert UpperStr("ATGC") == "ATGC";
    assert UpperStr("atgc") == "ATGC";
    assert UpperStr("ATXG") == "ATXG";
    assert "ATGC"[..3] == "ATG" && "ATG"[..2] == "AT" && "AT"[..1] == "A" && "A"[..0] == "";
    assert "ATXG"[..3] == "ATX" && "ATX"[..2] == "AT";
  }

  /** The alphabet examples: mixed case is fine, X and N are not, the empty text is valid. */
  lemma ValidatorExamples()
    ensures IsValidSequence("ATGCatgc")
    ensures IsValidSequence("")
    ensures !IsValidSequence("ATXG")
    ensures !IsValidSequence("atgn")
  {
    ValidatorAcceptsMixedCase();
    assert "ATXG"[2] == 'X';
    assert "atgn"[3] == 'n';
  }

  lemma ValidatorAcceptsMixedCase()
    ensures IsValidSequence("ATGCatgc")
  {
    assert "ATGCatgc"[1..] == "TGCatgc" && "TGCatgc"[1..] == "GCatgc" && "GCatgc"[1..] == "Catgc";
    assert "Catgc"[1..] == "atgc" && "atgc"[1..] == "tgc" && "tgc"[1..] == "gc" && "gc"[1..] == "c";
  }
}
