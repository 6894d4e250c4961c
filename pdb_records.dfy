/** The typed structural records the extractor consumes. The fixed-column
    line parser that produces them is an external collaborator: here a record
    is already classified, and only the fields the extractor reads are kept. */
module PdbRecords {

  datatype Option<T> = None | Some(value: T)

  /** The fields shared by ATOM and HETATM records that the extractor reads. */
  datatype AtomFields = AtomFields(
    name: string,          // atom name, possibly empty
    altLoc: Option<char>,  // alternate-location indicator
    chainId: Option<char>, // chain identifier; the parser may leave it out
    resName: string        // residue name, possibly empty or non-standard
  )

  datatype Record =
    | Atom(atom: AtomFields)
    | Hetatm(atom: AtomFields)
    | Endmdl
    | Other

  /** The extractor unwraps the chain id of every ATOM and HETATM record it
      is handed, whether or not the record then qualifies. */
  predicate HasChain(r: Record) {
    (r.Atom? || r.Hetatm?) ==> r.atom.chainId.Some?
  }

  /** Every record that reaches the handler carries a chain id: the records
      up to the first ENDMDL. Records after it are never handled. */
  predicate ChainIdsPresent(rs: seq<Record>) {
    rs == [] || rs[0].Endmdl? || (HasChain(rs[0]) && ChainIdsPresent(rs[1..]))
  }

  predicate NoEndmdl(rs: seq<Record>) {
    forall i :: 0 <= i < |rs| ==> !rs[i].Endmdl?
  }

  /** Splitting an ENDMDL-free prefix off a well-formed stream leaves two
      well-formed streams. */
  lemma {:induction false} ChainIdsPresentSplit(xs: seq<Record>, ys: seq<Record>)
    requires NoEndmdl(xs) && ChainIdsPresent(xs + ys)
    ensures ChainIdsPresent(xs) && ChainIdsPresent(ys)
  {
    if xs != [] {
      assert (xs + ys)[0] == xs[0];
      assert (xs + ys)[1..] == xs[1..] + ys;
      ChainIdsPresentSplit(xs[1..], ys);
    } else {
      assert xs + ys == ys;
    }
  }

  /** Appending one more handled record to an ENDMDL-free well-formed prefix
      keeps it well formed. */
  lemma {:induction false} ChainIdsPresentSnoc(xs: seq<Record>, r: Record)
    requires NoEndmdl(xs) && ChainIdsPresent(xs) && HasChain(r)
    ensures ChainIdsPresent(xs + [r])
  {
    if xs != [] {
      assert (xs + [r])[1..] == xs[1..] + [r];
      ChainIdsPresentSnoc(xs[1..], r);
    } else {
      assert xs + [r] == [r];
      assert [r][1..] == [];
    }
  }

  /** A record handled after an ENDMDL-free prefix of a well-formed stream
      carries a chain id if it is an ATOM or HETATM. */
  lemma ChainIdsPresentAt(xs: seq<Record>, r: Record, ys: seq<Record>)
    requires NoEndmdl(xs) && ChainIdsPresent(xs + [r] + ys) && !r.Endmdl?
    ensures HasChain(r)
  {
    assert xs + [r] + ys == xs + ([r] + ys);
    ChainIdsPresentSplit(xs, [r] + ys);
    assert ([r] + ys)[0] == r;
  }
}
