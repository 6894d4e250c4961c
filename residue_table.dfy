/** The residue code table: a fixed, case-sensitive, exact-match map from the
    twenty canonical three-letter amino-acid codes to their one-letter codes.
    Every other residue name reads as the unknown code 'X'. */
module ResidueTable {

  /** The one-letter code reported for any residue name outside the table. */
  const Unknown: char := 'X'

  /** The twenty canonical entries, in the order the table is filled. */
  const Terms: map<string, char> := map[
    "ALA" := 'A', "VAL" := 'V', "PHE" := 'F', "PRO" := 'P', "MET" := 'M',
    "ILE" := 'I', "LEU" := 'L', "ASP" := 'D', "GLU" := 'E', "LYS" := 'K',
    "ARG" := 'R', "SER" := 'S', "THR" := 'T', "TYR" := 'Y', "HIS" := 'H',
    "CYS" := 'C', "ASN" := 'N', "GLN" := 'Q', "TRP" := 'W', "GLY" := 'G'
  ]

  /** Looks a residue name up in the table; total, never fails. */
  function Aa3to1(aa: string): (code: char)
    ensures code == Unknown <==> aa !in Terms
    ensures 'A' <= code <= 'Z'
  {
    if aa in Terms then Terms[aa] else Unknown
  }

  /** Each canonical code maps to its standard one-letter code (one lemma
      per row of the table above). */
  lemma Aa3to1CanonicalAlaToMet()
    ensures Aa3to1("ALA") == 'A'
    ensures Aa3to1("VAL") == 'V'
    ensures Aa3to1("PHE") == 'F'
    ensures Aa3to1("PRO") == 'P'
    ensures Aa3to1("MET") == 'M'
  {
  }

  lemma Aa3to1CanonicalIleToLys()
    ensures Aa3to1("ILE") == 'I'
    ensures Aa3to1("LEU") == 'L'
    ensures Aa3to1("ASP") == 'D'
    ensures Aa3to1("GLU") == 'E'
    ensures Aa3to1("LYS") == 'K'
  {
  }

  lemma Aa3to1CanonicalArgToHis()
    ensures Aa3to1("ARG") == 'R'
    ensures Aa3to1("SER") == 'S'
    ensures Aa3to1("THR") == 'T'
    ensures Aa3to1("TYR") == 'Y'
    ensures Aa3to1("HIS") == 'H'
  {
  }

  lemma Aa3to1CanonicalCysToGly()
    ensures Aa3to1("CYS") == 'C'
    ensures Aa3to1("ASN") == 'N'
    ensures Aa3to1("GLN") == 'Q'
    ensures Aa3to1("TRP") == 'W'
    ensures Aa3to1("GLY") == 'G'
  {
  }

  /** Unknown, modified and empty residue names read as 'X'; in particular
      selenomethionine ("MSE") is not in the table. */
  lemma Aa3to1Unknowns()
    ensures Aa3to1("OTO") == Unknown
    ensures Aa3to1("MSE") == Unknown
    ensures Aa3to1("") == Unknown
    ensures Aa3to1("ZZZ") == Unknown
  {
  }

  /** Only names of exactly three characters can be in the table. */
  lemma {:induction false} Aa3to1WrongLength(aa: string)
    requires |aa| != 3
    ensures Aa3to1(aa) == Unknown
  {
    assert forall k | k in Terms :: |k| == 3;
  }

  /** The match is case-sensitive: a name holding any character that is not
      an upper-case ASCII letter (a lower-case "ala", say) reads as 'X'. */
  lemma {:induction false} Aa3to1CaseSensitive(aa: string, i: nat)
    requires i < |aa| && !('A' <= aa[i] <= 'Z')
    ensures Aa3to1(aa) == Unknown
  {
    TermsAreUpperCase();
  }

  /** Every key of the table is spelled in upper-case ASCII letters. */
  lemma TermsAreUpperCase()
    ensures forall k, j | k in Terms && 0 <= j < |k| :: 'A' <= k[j] <= 'Z'
  {
  }

  /** Distinct canonical codes have distinct one-letter codes, so a known
      letter in the FASTA output names exactly one residue: the conversion
      loses no information about canonical residues, only about those it
      writes as 'X'. */
  lemma Aa3to1Injective(a: string, b: string)
    requires Aa3to1(a) == Aa3to1(b) != Unknown
    ensures a == b
  {
  }
}
