/** Worked conversions on small record streams: what the extractor writes
    for typical scenarios, including a selenomethionine HETATM, which reads
    as 'X', and a leading record on the blank chain, which opens no header. */
module ConversionExamples {
  import opened PdbRecords
  import opened ResidueTable
  import opened FastaSpec

  /** An alpha-carbon ATOM record with no alternate location. */
  function CaAtom(chain: char, resName: string): Record {
    Atom(AtomFields("CA", None, Some(chain), resName))
  }

  /** Handling the first record of a stream and folding the rest. */
  lemma FoldFirst(s: ExtractState, r: Record, rest: seq<Record>)
    requires !r.Endmdl? && HasChain(r) && ChainIdsPresent(rest)
    ensures ChainIdsPresent([r] + rest)
    ensures Fold(s, [r] + rest) == Fold(Step(s, r), rest)
  {
    assert ([r] + rest)[0] == r && ([r] + rest)[1..] == rest;
  }

  /** A stream of two handled records is two steps from the start. */
  lemma TwoSteps(r0: Record, r1: Record)
    requires !r0.Endmdl? && !r1.Endmdl? && HasChain(r0) && HasChain(r1)
    ensures ChainIdsPresent([r0, r1])
    ensures Extract([r0, r1]) == Step(Step(Initial, r0), r1)
  {
    var s1 := Step(Initial, r0);
    assert Fold(Step(s1, r1), []) == Step(s1, r1);
    FoldFirst(s1, r1, []);
    assert [r1] + [] == [r1];
    FoldFirst(Initial, r0, [r1]);
    assert [r0] + [r1] == [r0, r1];
  }

  /** An ALA residue followed by an alternate-location-B atom: the second
      record is skipped. */
  lemma AltLocExample()
    ensures Extract([CaAtom('A', "ALA"), Atom(AtomFields("CA", Some('B'), Some('A'), "VAL"))]).out
         == ">pdb:A\nA"
  {
    var r0, r1 := CaAtom('A', "ALA"), Atom(AtomFields("CA", Some('B'), Some('A'), "VAL"));
    TwoSteps(r0, r1);
    assert Step(Initial, r0).out == ">pdb:A\nA" by {
      HeaderOnChainChange(Initial, r0);
      Aa3to1CanonicalAlaToMet();
    }
    assert !Qualifies(r1);
  }

  /** A stream of three handled records is three steps from the start. */
  lemma ThreeSteps(r0: Record, r1: Record, r2: Record)
    requires !r0.Endmdl? && !r1.Endmdl? && !r2.Endmdl?
    requires HasChain(r0) && HasChain(r1) && HasChain(r2)
    ensures ChainIdsPresent([r0, r1, r2])
    ensures Extract([r0, r1, r2]) == Step(Step(Step(Initial, r0), r1), r2)
  {
    var s1 := Step(Initial, r0);
    var s2 := Step(s1, r1);
    assert Fold(Step(s2, r2), []) == Step(s2, r2);
    FoldFirst(s2, r2, []);
    assert [r2] + [] == [r2];
    FoldFirst(s1, r1, [r2]);
    assert [r1] + [r2] == [r1, r2];
    FoldFirst(Initial, r0, [r1, r2]);
    assert [r0] + [r1, r2] == [r0, r1, r2];
  }

  /** Three qualifying records on chains a, b, a (a not blank, b != a):
      chain a is opened twice, so three headers; chains are not merged. */
  lemma ReopenedChain(r0: Record, r1: Record, r2: Record)
    requires HasChain(r0) && HasChain(r1) && HasChain(r2)
    requires Qualifies(r0) && Qualifies(r1) && Qualifies(r2)
    requires ChainOf(r0) == ChainOf(r2) != InitialChain
    requires ChainOf(r1) != ChainOf(r0)
    ensures ChainIdsPresent([r0, r1, r2])
    ensures Extract([r0, r1, r2]).out
         == Header(ChainOf(r0)) + [Aa3to1(r0.atom.resName)]
            + Header(ChainOf(r1)) + [Aa3to1(r1.atom.resName)]
            + Header(ChainOf(r0)) + [Aa3to1(r2.atom.resName)]
  {
    ThreeSteps(r0, r1, r2);
    var a, b := ChainOf(r0), ChainOf(r1);
    var s1 := Step(Initial, r0);
    var s2 := Step(s1, r1);
    assert s1.out == Header(a) + [Aa3to1(r0.atom.resName)] && s1.prev == a by {
      HeaderOnChainChange(Initial, r0);
    }
    assert s2.out == s1.out + Header(b) + [Aa3to1(r1.atom.resName)] && s2.prev == b by {
      HeaderOnChainChange(s1, r1);
    }
    assert Step(s2, r2).out == s2.out + Header(a) + [Aa3to1(r2.atom.resName)] by {
      HeaderOnChainChange(s2, r2);
    }
  }

  /** A selenomethionine HETATM after ALA appends 'X', not 'M'. */
  lemma SelenomethionineExample()
    ensures Extract([CaAtom('A', "ALA"), Hetatm(AtomFields("CA", None, Some('A'), "MSE"))]).out
         == ">pdb:A\nAX"
    ensures Extract([CaAtom('A', "ALA"), Hetatm(AtomFields("CA", None, Some('A'), "MSE"))]).diags == []
  {
    var r0, r1 := CaAtom('A', "ALA"), Hetatm(AtomFields("CA", None, Some('A'), "MSE"));
    TwoSteps(r0, r1);
    var s1 := Step(Initial, r0);
    assert s1.out == ">pdb:A\nA" && s1.prev == 'A' && s1.diags == [] by {
      HeaderOnChainChange(Initial, r0);
      Aa3to1CanonicalAlaToMet();
    }
    assert Step(s1, r1).out == s1.out + "X" && Step(s1, r1).diags == [] by {
      HeaderOnChainChange(s1, r1);
      Aa3to1Unknowns();
    }
  }

  /** An unknown residue code gives 'X' and one diagnostic naming it. */
  lemma UnknownResidueExample()
    ensures ChainIdsPresent([CaAtom('A', "ZZZ")])
    ensures Extract([CaAtom('A', "ZZZ")]).out == ">pdb:A\nX"
    ensures Extract([CaAtom('A', "ZZZ")]).diags == ["ZZZ"]
  {
    var r := CaAtom('A', "ZZZ");
    FoldFirst(Initial, r, []);
    assert [r] + [] == [r];
    assert Step(Initial, r).out == ">pdb:A\nX" && Step(Initial, r).diags == ["ZZZ"] by {
      HeaderOnChainChange(Initial, r);
      Aa3to1Unknowns();
    }
  }

  /** Nothing after the first ENDMDL is converted. */
  lemma FirstModelOnlyExample()
    ensures ChainIdsPresent([CaAtom('A', "ALA"), Endmdl, CaAtom('B', "GLY")])
    ensures Extract([CaAtom('A', "ALA"), Endmdl, CaAtom('B', "GLY")]).out == ">pdb:A\nA"
  {
    var r0, r1 := CaAtom('A', "ALA"), CaAtom('B', "GLY");
    FoldStopsAtEndmdl(Initial, [r0], [r1]);
    assert [r0] + [Endmdl] + [r1] == [r0, Endmdl, r1];
    FoldFirst(Initial, r0, []);
    assert [r0] + [] == [r0];
    assert Step(Initial, r0).out == ">pdb:A\nA" by {
      HeaderOnChainChange(Initial, r0);
      Aa3to1CanonicalAlaToMet();
    }
  }

  /** A qualifying record on the blank chain matches the initial cursor, so
      it is written without a header; the next chain then opens its own. */
  lemma BlankChainOpensNoHeader(r0: Record, r1: Record)
    requires HasChain(r0) && HasChain(r1) && Qualifies(r0) && Qualifies(r1)
    requires ChainOf(r0) == InitialChain && ChainOf(r1) != InitialChain
    ensures ChainIdsPresent([r0, r1])
    ensures Extract([r0, r1]).out
         == [Aa3to1(r0.atom.resName)] + Header(ChainOf(r1)) + [Aa3to1(r1.atom.resName)]
  {
    TwoSteps(r0, r1);
    var s1 := Step(Initial, r0);
    assert s1.out == [Aa3to1(r0.atom.resName)] && s1.prev == InitialChain by {
      HeaderOnChainChange(Initial, r0);
    }
    assert Step(s1, r1).out == s1.out + Header(ChainOf(r1)) + [Aa3to1(r1.atom.resName)] by {
      HeaderOnChainChange(s1, r1);
    }
  }

  /** ALA on the blank chain, then GLY on chain B. */
  lemma BlankChainExample()
    ensures ChainIdsPresent([CaAtom(' ', "ALA"), CaAtom('B', "GLY")])
    ensures Extract([CaAtom(' ', "ALA"), CaAtom('B', "GLY")]).out == "A>pdb:B\nG"
  {
    var r0, r1 := CaAtom(' ', "ALA"), CaAtom('B', "GLY");
    BlankChainOpensNoHeader(r0, r1);
    assert Aa3to1(r0.atom.resName) == 'A' by { Aa3to1CanonicalAlaToMet(); }
    assert Aa3to1(r1.atom.resName) == 'G' by { Aa3to1CanonicalCysToGly(); }
    assert ['A'] + Header('B') + ['G'] == "A>pdb:B\nG";
  }
}
