/** The sequence extractor as a pure fold: the per-record filter, the chain
    cursor and header rule, and the stop at the first ENDMDL. The imperative
    extractor in SequenceExtractor is proved against these functions. */
module FastaSpec {
  import opened PdbRecords
  import opened ResidueTable

  /** Everything one conversion run accumulates: the FASTA text written so
      far, the previous-chain cursor, and the residue names reported as
      unknown on the diagnostic channel. */
  datatype ExtractState = ExtractState(out: string, prev: char, diags: seq<string>)

  /** The cursor starts at a blank, before any record is seen. */
  const InitialChain: char := ' '
  const Initial: ExtractState := ExtractState([], InitialChain, [])

  /** The header line that opens a chain's block. */
  function Header(c: char): string {
    ">pdb:" + [c] + "\n"
  }

  /** No alternate location, or the primary one. */
  predicate AltLocAccepted(a: AtomFields) {
    a.altLoc.None? || a.altLoc == Some('A')
  }

  /** No atom name, or the alpha carbon. */
  predicate NameAccepted(a: AtomFields) {
    a.name == [] || a.name == "CA"
  }

  /** HETATM only: no residue name, or selenomethionine. */
  predicate ResNameAccepted(a: AtomFields) {
    a.resName == [] || a.resName == "MSE"
  }

  /** A record that contributes one residue to the sequence. */
  predicate Qualifies(r: Record) {
    match r
    case Atom(a) => AltLocAccepted(a) && NameAccepted(a)
    case Hetatm(a) => AltLocAccepted(a) && NameAccepted(a) && ResNameAccepted(a)
    case _ => false
  }

  function ChainOf(r: Record): char
    requires (r.Atom? || r.Hetatm?) && HasChain(r)
  {
    r.atom.chainId.value
  }

  /** One record handled: a qualifying record writes a header when its chain
      differs from the cursor, moves the cursor, and appends one letter;
      anything else leaves the state alone. Only the ATOM path reports an
      unknown residue. */
  function Step(s: ExtractState, r: Record): (t: ExtractState)
    requires HasChain(r)
    ensures s.out <= t.out && s.diags <= t.diags
    ensures !Qualifies(r) ==> t == s
    ensures Qualifies(r) ==> t.prev == ChainOf(r) && |s.out| < |t.out|
  {
    if !Qualifies(r) then s
    else
      var c := r.atom.chainId.value;
      var code := Aa3to1(r.atom.resName);
      ExtractState(
        s.out + (if c != s.prev then Header(c) else []) + [code],
        c,
        s.diags + (if r.Atom? && code == Unknown then [r.atom.resName] else []))
  }

  /** The records handled in document order, stopping at the first ENDMDL. */
  function Fold(s: ExtractState, rs: seq<Record>): (t: ExtractState)
    requires ChainIdsPresent(rs)
    ensures s.out <= t.out && s.diags <= t.diags
    decreases |rs|
  {
    if rs == [] || rs[0].Endmdl? then s
    else Fold(Step(s, rs[0]), rs[1..])
  }

  /** A whole conversion run, from the blank cursor and an empty sink. */
  function Extract(rs: seq<Record>): ExtractState
    requires ChainIdsPresent(rs)
  {
    Fold(Initial, rs)
  }

  /** The residue names of the qualifying ATOM records before the first
      ENDMDL whose code is not in the table, in document order. */
  function UnknownAtomNames(rs: seq<Record>): seq<string> {
    if rs == [] || rs[0].Endmdl? then []
    else
      var r := rs[0];
      (if r.Atom? && Qualifies(r) && Aa3to1(r.atom.resName) == Unknown then [r.atom.resName] else [])
      + UnknownAtomNames(rs[1..])
  }

  // ---------------------------------------------------------------------
  // One record

  /** Records other than ATOM and HETATM change nothing. */
  lemma OtherIgnored(s: ExtractState)
    ensures Step(s, Other) == s
  {
  }

  /** An ATOM record contributes exactly when its alternate location is
      absent or primary and its name is empty or "CA"; otherwise neither the
      output nor the cursor changes. */
  lemma AtomContributesIff(s: ExtractState, r: Record)
    requires r.Atom? && HasChain(r)
    ensures Step(s, r) == s <==> !(AltLocAccepted(r.atom) && NameAccepted(r.atom))
  {
  }

  /** A HETATM record contributes exactly when it passes the same two tests
      and its residue name is empty or "MSE". */
  lemma HetatmContributesIff(s: ExtractState, r: Record)
    requires r.Hetatm? && HasChain(r)
    ensures Step(s, r) == s
        <==> !(AltLocAccepted(r.atom) && NameAccepted(r.atom) && ResNameAccepted(r.atom))
  {
  }

  /** A qualifying HETATM always appends 'X', since neither "MSE" nor the
      empty name is in the table, and never reports a diagnostic. */
  lemma HetatmAppendsUnknown(s: ExtractState, r: Record)
    requires r.Hetatm? && HasChain(r) && Qualifies(r)
    ensures Step(s, r).out[|Step(s, r).out| - 1] == Unknown
    ensures Step(s, r).diags == s.diags
  {
    Aa3to1Unknowns();
  }

  /** A qualifying ATOM record reports its residue name exactly when the
      name is not in the table. */
  lemma AtomDiagnosesIffUnknown(s: ExtractState, r: Record)
    requires r.Atom? && HasChain(r) && Qualifies(r)
    ensures Step(s, r).diags == s.diags + [r.atom.resName] <==> Aa3to1(r.atom.resName) == Unknown
    ensures Step(s, r).diags == s.diags <==> Aa3to1(r.atom.resName) != Unknown
  {
  }

  /** A header is written exactly when the chain differs from the cursor,
      which then holds the chain; one letter follows either way. */
  lemma HeaderOnChainChange(s: ExtractState, r: Record)
    requires HasChain(r) && Qualifies(r)
    ensures Step(s, r).prev == ChainOf(r)
    ensures ChainOf(r) != s.prev ==> Step(s, r).out == s.out + Header(ChainOf(r)) + [Aa3to1(r.atom.resName)]
    ensures ChainOf(r) == s.prev ==> Step(s, r).out == s.out + [Aa3to1(r.atom.resName)]
  {
  }

  // ---------------------------------------------------------------------
  // Whole runs

  /** Handling one more record after an ENDMDL-free prefix is one more step. */
  lemma {:induction false} FoldSnoc(s: ExtractState, xs: seq<Record>, r: Record)
    requires NoEndmdl(xs) && ChainIdsPresent(xs) && !r.Endmdl? && HasChain(r)
    ensures NoEndmdl(xs + [r]) && ChainIdsPresent(xs + [r])
    ensures Fold(s, xs + [r]) == Step(Fold(s, xs), r)
    decreases |xs|
  {
    ChainIdsPresentSnoc(xs, r);
    assert forall k :: 0 <= k < |xs + [r]| ==> (xs + [r])[k] == if k < |xs| then xs[k] else r;
    if xs == [] {
      assert xs + [r] == [r];
      assert [r][1..] == [];
    } else {
      assert (xs + [r])[0] == xs[0];
      assert (xs + [r])[1..] == xs[1..] + [r];
      FoldSnoc(Step(s, xs[0]), xs[1..], r);
    }
  }

  /** Only the first model is converted: whatever follows the first ENDMDL
      has no effect on the output, the cursor or the diagnostics. */
  lemma {:induction false} FoldStopsAtEndmdl(s: ExtractState, xs: seq<Record>, ys: seq<Record>)
    requires NoEndmdl(xs) && ChainIdsPresent(xs)
    ensures ChainIdsPresent(xs + [Endmdl] + ys)
    ensures Fold(s, xs + [Endmdl] + ys) == Fold(s, xs)
    decreases |xs|
  {
    if xs == [] {
      assert xs + [Endmdl] + ys == [Endmdl] + ys;
    } else {
      assert (xs + [Endmdl] + ys)[0] == xs[0];
      assert (xs + [Endmdl] + ys)[1..] == xs[1..] + [Endmdl] + ys;
      FoldStopsAtEndmdl(Step(s, xs[0]), xs[1..], ys);
    }
  }

  /** The diagnostic channel receives exactly the unknown residue names of
      the qualifying ATOM records, in order; HETATM records never add one. */
  lemma {:induction false} FoldDiagnostics(s: ExtractState, rs: seq<Record>)
    requires ChainIdsPresent(rs)
    ensures Fold(s, rs).diags == s.diags + UnknownAtomNames(rs)
    decreases |rs|
  {
    if rs == [] || rs[0].Endmdl? {
    } else {
      FoldDiagnostics(Step(s, rs[0]), rs[1..]);
    }
  }

  /** Because the cursor starts blank, the first qualifying record with a
      non-blank chain opens the output with that chain's header. */
  lemma FirstRecordOpensHeader(r: Record, rest: seq<Record>)
    requires HasChain(r) && Qualifies(r) && ChainOf(r) != InitialChain
    requires ChainIdsPresent([r] + rest)
    ensures Header(ChainOf(r)) <= Extract([r] + rest).out
  {
    assert ([r] + rest)[0] == r && ([r] + rest)[1..] == rest;
    assert Step(Initial, r).out == Header(ChainOf(r)) + [Aa3to1(r.atom.resName)];
  }
}
