/** What the extractor's output looks like as a FASTA document: the
    qualifying residues, grouped into maximal runs of one chain, each run
    rendered as a header line followed by its letters. Chains are not merged
    across runs: a chain that comes back after another opens a new block. */
module FastaFormat {
  import opened PdbRecords
  import opened ResidueTable
  import opened FastaSpec

  /** One qualifying record, reduced to what reaches the output. */
  datatype Residue = Residue(chain: char, letter: char)

  /** One FASTA block: a chain and the letters written under its header. */
  datatype Block = Block(chain: char, letters: string)

  /** The qualifying records before the first ENDMDL, in document order. */
  function Qualified(rs: seq<Record>): seq<Residue>
    requires ChainIdsPresent(rs)
  {
    if rs == [] || rs[0].Endmdl? then []
    else
      (if Qualifies(rs[0]) then [Residue(ChainOf(rs[0]), Aa3to1(rs[0].atom.resName))] else [])
      + Qualified(rs[1..])
  }

  /** The residues a block stands for. */
  function Spread(b: Block): (ps: seq<Residue>)
    ensures |ps| == |b.letters|
  {
    seq(|b.letters|, i requires 0 <= i < |b.letters| => Residue(b.chain, b.letters[i]))
  }

  /** The residues a list of blocks stands for, in order. */
  function Ungroup(bs: seq<Block>): seq<Residue> {
    if bs == [] then [] else Spread(bs[0]) + Ungroup(bs[1..])
  }

  /** Groups residues into runs of one chain, front to back. */
  function Runs(ps: seq<Residue>): seq<Block> {
    if ps == [] then []
    else
      var rest := Runs(ps[1..]);
      if rest != [] && rest[0].chain == ps[0].chain then
        [Block(ps[0].chain, [ps[0].letter] + rest[0].letters)] + rest[1..]
      else
        [Block(ps[0].chain, [ps[0].letter])] + rest
  }

  /** A letter in front of a block stands for one more residue of its chain. */
  lemma SpreadCons(c: char, x: char, letters: string)
    ensures Spread(Block(c, [x] + letters)) == [Residue(c, x)] + Spread(Block(c, letters))
  {
    assert forall i :: 0 < i <= |letters| ==> ([x] + letters)[i] == letters[i - 1];
  }

  lemma UngroupCons(b: Block, bs: seq<Block>)
    ensures Ungroup([b] + bs) == Spread(b) + Ungroup(bs)
  {
    assert ([b] + bs)[0] == b && ([b] + bs)[1..] == bs;
  }

  /** One residue in front: if the runs of the tail stand for the tail,
      the runs of the longer list stand for it too. */
  lemma RunsUngroupCons(p: Residue, tail: seq<Residue>)
    requires Ungroup(Runs(tail)) == tail
    ensures Ungroup(Runs([p] + tail)) == [p] + tail
  {
    var rest := Runs(tail);
    assert ([p] + tail)[0] == p && ([p] + tail)[1..] == tail;
    if rest != [] && rest[0].chain == p.chain {
      var b := Block(p.chain, [p.letter] + rest[0].letters);
      assert Runs([p] + tail) == [b] + rest[1..];
      assert Ungroup(rest) == Spread(rest[0]) + Ungroup(rest[1..]) by {
        UngroupCons(rest[0], rest[1..]);
        assert rest == [rest[0]] + rest[1..];
      }
      assert Ungroup([b] + rest[1..]) == [p] + Spread(rest[0]) + Ungroup(rest[1..]) by {
        SpreadCons(p.chain, p.letter, rest[0].letters);
        UngroupCons(b, rest[1..]);
      }
    } else {
      var b := Block(p.chain, [p.letter]);
      assert Runs([p] + tail) == [b] + rest;
      assert Spread(b) == [p];
      UngroupCons(b, rest);
    }
  }

  /** The runs stand for exactly the given residues, in order: grouping
      loses, adds and reorders nothing. */
  lemma {:induction false} RunsUngroup(ps: seq<Residue>)
    ensures Ungroup(Runs(ps)) == ps
    decreases |ps|
  {
    if ps != [] {
      RunsUngroup(ps[1..]);
      RunsUngroupCons(ps[0], ps[1..]);
      assert ps == [ps[0]] + ps[1..];
    }
  }

  /** The runs are maximal: none is empty, the first has the first residue's
      chain, and neighbouring runs belong to different chains. */
  lemma {:induction false} RunsAreMaximal(ps: seq<Residue>)
    ensures forall i :: 0 <= i < |Runs(ps)| ==> Runs(ps)[i].letters != []
    ensures forall i :: 0 < i < |Runs(ps)| ==> Runs(ps)[i - 1].chain != Runs(ps)[i].chain
    ensures ps != [] ==> Runs(ps) != [] && Runs(ps)[0].chain == ps[0].chain
    decreases |ps|
  {
    if ps != [] {
      RunsAreMaximal(ps[1..]);
      var rest := Runs(ps[1..]);
      var bs := Runs(ps);
      if rest != [] && rest[0].chain == ps[0].chain {
        assert bs == [Block(ps[0].chain, [ps[0].letter] + rest[0].letters)] + rest[1..];
        forall i | 0 < i < |bs| ensures bs[i - 1].chain != bs[i].chain {
          assert bs[i] == rest[i];
          if i > 1 {
            assert bs[i - 1] == rest[i - 1];
          }
        }
      } else {
        assert bs == [Block(ps[0].chain, [ps[0].letter])] + rest;
        forall i | 0 < i < |bs| ensures bs[i - 1].chain != bs[i].chain {
          assert bs[i] == rest[i - 1];
          if i > 1 {
            assert bs[i - 1] == rest[i - 2];
          }
        }
      }
    }
  }

  /** Blocks written out, each with its own header. */
  function Render(bs: seq<Block>): string {
    if bs == [] then [] else Header(bs[0].chain) + bs[0].letters + Render(bs[1..])
  }

  /** Blocks written out after a cursor holding prev: a first block of that
      very chain continues the current sequence without a header. */
  function RenderAfter(prev: char, bs: seq<Block>): string {
    if bs != [] && bs[0].chain == prev then bs[0].letters + Render(bs[1..]) else Render(bs)
  }

  /** The cursor after a run: the chain of the last qualifying residue. */
  function LastChain(prev: char, ps: seq<Residue>): char {
    if ps == [] then prev else ps[|ps| - 1].chain
  }

  /** One qualifying residue in front of the rest: its header (if its chain
      is not the cursor's) and letter, then the rest after its chain. */
  lemma RenderAfterCons(prev: char, p: Residue, ps: seq<Residue>)
    ensures RenderAfter(prev, Runs([p] + ps))
         == (if p.chain != prev then Header(p.chain) else []) + [p.letter]
            + RenderAfter(p.chain, Runs(ps))
  {
    assert ([p] + ps)[0] == p && ([p] + ps)[1..] == ps;
    var rest := Runs(ps);
    if rest != [] && rest[0].chain == p.chain {
      var b := Block(p.chain, [p.letter] + rest[0].letters);
      assert Runs([p] + ps) == [b] + rest[1..];
      assert ([b] + rest[1..])[1..] == rest[1..];
    } else {
      var b := Block(p.chain, [p.letter]);
      assert Runs([p] + ps) == [b] + rest;
      assert ([b] + rest)[1..] == rest;
    }
  }

  /** A qualifying record's contribution is its header, when its chain is
      not the cursor's, and its letter: whatever is written after it lands
      behind both. */
  lemma StepThenWrite(s: ExtractState, r: Record, tail: string)
    requires HasChain(r) && Qualifies(r)
    ensures Step(s, r).out + tail
         == s.out + ((if ChainOf(r) != s.prev then Header(ChainOf(r)) else []) + [Aa3to1(r.atom.resName)] + tail)
  {
    var c, l := ChainOf(r), Aa3to1(r.atom.resName);
    if c != s.prev {
      assert Step(s, r).out == s.out + Header(c) + [l];
      assert (s.out + Header(c) + [l]) + tail == s.out + (Header(c) + [l] + tail);
    } else {
      assert Step(s, r).out == s.out + [l];
      assert [] + [l] + tail == [l] + tail;
    }
  }

  /** The output of a run is the FASTA rendering of the maximal same-chain
      runs of its qualifying residues, appended to what was written before. */
  lemma {:induction false} FoldRendersRuns(s: ExtractState, rs: seq<Record>)
    requires ChainIdsPresent(rs)
    ensures Fold(s, rs).out == s.out + RenderAfter(s.prev, Runs(Qualified(rs)))
    decreases |rs|
  {
    if rs == [] || rs[0].Endmdl? {
    } else {
      var r := rs[0];
      FoldRendersRuns(Step(s, r), rs[1..]);
      if Qualifies(r) {
        var p := Residue(ChainOf(r), Aa3to1(r.atom.resName));
        assert Qualified(rs) == [p] + Qualified(rs[1..]);
        RenderAfterCons(s.prev, p, Qualified(rs[1..]));
        StepThenWrite(s, r, RenderAfter(p.chain, Runs(Qualified(rs[1..]))));
      } else {
        assert Qualified(rs) == [] + Qualified(rs[1..]) == Qualified(rs[1..]);
      }
    }
  }

  /** After a run the cursor holds the chain of the last qualifying residue,
      or its old value when nothing qualified. */
  lemma {:induction false} FoldEndsOnLastChain(s: ExtractState, rs: seq<Record>)
    requires ChainIdsPresent(rs)
    ensures Fold(s, rs).prev == LastChain(s.prev, Qualified(rs))
    decreases |rs|
  {
    if rs == [] || rs[0].Endmdl? {
    } else {
      var r := rs[0];
      FoldEndsOnLastChain(Step(s, r), rs[1..]);
      if Qualifies(r) {
        var p := Residue(ChainOf(r), Aa3to1(r.atom.resName));
        assert Qualified(rs) == [p] + Qualified(rs[1..]);
      } else {
        assert Qualified(rs) == [] + Qualified(rs[1..]) == Qualified(rs[1..]);
      }
    }
  }

  /** A whole conversion: blocks in document order, one per maximal run of a
      chain; only a leading run on a blank chain goes without a header. */
  lemma ExtractIsFasta(rs: seq<Record>)
    requires ChainIdsPresent(rs)
    ensures Extract(rs).out == RenderAfter(InitialChain, Runs(Qualified(rs)))
    ensures (Qualified(rs) == [] || Qualified(rs)[0].chain != InitialChain)
        ==> Extract(rs).out == Render(Runs(Qualified(rs)))
  {
    FoldRendersRuns(Initial, rs);
  }
}
