/** The imperative extractor: a handler that updates the output sink and the
    previous-chain cursor in place, and the driver loop that feeds it the
    document's records, skipping short and unparsable lines and stopping at
    the first ENDMDL. Both are proved against the fold in FastaSpec. */
module SequenceExtractor {
  import opened PdbRecords
  import opened ResidueTable
  import opened FastaSpec

  /** The mutable state of one conversion run: the text written to the sink
      so far, the previous-chain cursor, and (as ghost state) the residue
      names reported on the diagnostic channel. */
  class Extractor {
    var out: string
    var prevChain: char
    ghost var diagnostics: seq<string>

    ghost function Current(): ExtractState
      reads this
    {
      ExtractState(out, prevChain, diagnostics)
    }

    /** A fresh run: empty sink, blank cursor, no diagnostics. */
    constructor ()
      ensures Current() == Initial
    {
      out := [];
      prevChain := InitialChain;
      diagnostics := [];
    }

    /** Handles one record: filters it, writes a header on a chain change,
        moves the cursor and appends the residue's letter. */
    method HandleRecord(r: Record)
      requires HasChain(r)
      modifies this
      ensures Current() == Step(old(Current()), r)
      ensures old(out) <= out
      ensures !Qualifies(r) ==> out == old(out) && prevChain == old(prevChain)
      ensures Qualifies(r) ==> prevChain == ChainOf(r)
      ensures Qualifies(r) && ChainOf(r) != old(prevChain)
              ==> out == old(out) + Header(ChainOf(r)) + [Aa3to1(r.atom.resName)]
      ensures Qualifies(r) && ChainOf(r) == old(prevChain)
              ==> out == old(out) + [Aa3to1(r.atom.resName)]
    {
      match r
      case Atom(a) =>
        var chainId := a.chainId.value;
        if (a.altLoc.Some? && a.altLoc != Some('A')) || (a.name != [] && a.name != "CA") {
          return;
        }
        if prevChain != chainId {
          prevChain := chainId;
          out := out + Header(chainId);
        }
        var code := Aa3to1(a.resName);
        if code == Unknown {
          diagnostics := diagnostics + [a.resName];
        }
        out := out + [code];
      case Hetatm(a) =>
        var chainId := a.chainId.value;
        if (a.altLoc.Some? && a.altLoc != Some('A'))
          || (a.name != [] && a.name != "CA")
          || (a.resName != [] && a.resName != "MSE")
        {
          return;
        }
        if prevChain != chainId {
          prevChain := chainId;
          out := out + Header(chainId);
        }
        var code := Aa3to1(a.resName);
        out := out + [code];
      case _ =>
    }
  }

  /** The records a raw line contributes: none when it is shorter than six
      characters or the parser rejects it. */
  function LineRecords(line: string, parse: string -> Option<Record>): seq<Record> {
    if |line| < 6 then []
    else match parse(line)
      case None => []
      case Some(r) => [r]
  }

  /** The record stream the parser makes of a document's lines. */
  function ParsedRecords(lines: seq<string>, parse: string -> Option<Record>): seq<Record> {
    if lines == [] then [] else LineRecords(lines[0], parse) + ParsedRecords(lines[1..], parse)
  }

  /** Parsing a document line by line: the stream of a concatenation is the
      concatenation of the streams. */
  lemma {:induction false} ParsedRecordsAppend(xs: seq<string>, ys: seq<string>, parse: string -> Option<Record>)
    ensures ParsedRecords(xs + ys, parse) == ParsedRecords(xs, parse) + ParsedRecords(ys, parse)
    decreases |xs|
  {
    if xs == [] {
      assert xs + ys == ys;
    } else {
      assert (xs + ys)[0] == xs[0];
      assert (xs + ys)[1..] == xs[1..] + ys;
      ParsedRecordsAppend(xs[1..], ys, parse);
    }
  }

  /** The stream of the first i + 1 lines extends that of the first i by
      the records of line i. */
  lemma ParsedRecordsSnoc(lines: seq<string>, parse: string -> Option<Record>, i: nat)
    requires i < |lines|
    ensures ParsedRecords(lines[..i + 1], parse)
         == ParsedRecords(lines[..i], parse) + LineRecords(lines[i], parse)
  {
    assert lines[..i + 1] == lines[..i] + [lines[i]];
    ParsedRecordsAppend(lines[..i], [lines[i]], parse);
    assert ParsedRecords([lines[i]], parse) == LineRecords(lines[i], parse) + [];
  }

  /** The whole stream is that of the lines before i, then line i's records,
      then the stream of the lines after it. */
  lemma ParsedRecordsSplit(lines: seq<string>, parse: string -> Option<Record>, i: nat)
    requires i < |lines|
    ensures ParsedRecords(lines, parse)
         == ParsedRecords(lines[..i], parse) + LineRecords(lines[i], parse) + ParsedRecords(lines[i + 1..], parse)
  {
    assert lines == lines[..i] + lines[i..];
    ParsedRecordsAppend(lines[..i], lines[i..], parse);
    assert lines[i..][0] == lines[i] && lines[i..][1..] == lines[i + 1..];
  }

  /** A line shorter than six characters, or one the parser rejects, has no
      effect: the document converts exactly as if the line were not there. */
  lemma SkippedLineIgnored(lines: seq<string>, parse: string -> Option<Record>, i: nat)
    requires i < |lines| && (|lines[i]| < 6 || parse(lines[i]).None?)
    ensures ParsedRecords(lines, parse) == ParsedRecords(lines[..i] + lines[i + 1..], parse)
  {
    ParsedRecordsSplit(lines, parse, i);
    ParsedRecordsAppend(lines[..i], lines[i + 1..], parse);
  }

  /** Converts a document, given as its lines and the external line parser,
      to FASTA text; the result is the fold over the parsed records, so it
      stops at the first ENDMDL and ignores short and unparsable lines. */
  method PdbToFasta(lines: seq<string>, parse: string -> Option<Record>)
    returns (fasta: string, ghost diagnostics: seq<string>)
    requires ChainIdsPresent(ParsedRecords(lines, parse))
    ensures fasta == Extract(ParsedRecords(lines, parse)).out
    ensures diagnostics == Extract(ParsedRecords(lines, parse)).diags
  {
    var e := new Extractor();
    ghost var handled: seq<Record> := [];
    var i := 0;
    while i < |lines|
      invariant 0 <= i <= |lines|
      invariant handled == ParsedRecords(lines[..i], parse)
      invariant NoEndmdl(handled) && ChainIdsPresent(handled)
      invariant e.Current() == Fold(Initial, handled)
    {
      ParsedRecordsSnoc(lines, parse, i);
      var line := lines[i];
      if |line| < 6 {
        assert handled + LineRecords(line, parse) == handled;
        i := i + 1;
        continue;
      }
      var parsed := parse(line);
      if parsed.None? {
        assert handled + LineRecords(line, parse) == handled;
        i := i + 1;
        continue;
      }
      var record := parsed.value;
      ParsedRecordsSplit(lines, parse, i);
      if record.Endmdl? {
        FoldStopsAtEndmdl(Initial, handled, ParsedRecords(lines[i + 1..], parse));
        break;
      }
      ChainIdsPresentAt(handled, record, ParsedRecords(lines[i + 1..], parse));
      FoldSnoc(Initial, handled, record);
      match record {
        case Atom(_) =>
          e.HandleRecord(record);
        case Hetatm(_) =>
          e.HandleRecord(record);
        case Other =>
      }
      handled := handled + [record];
      i := i + 1;
    }
    if i == |lines| {
      assert lines[..i] == lines;
    }
    fasta := e.out;
    diagnostics := e.diagnostics;
  }
}
