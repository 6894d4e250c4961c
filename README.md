# pdb2fasta: a verified model of the PDB-to-FASTA sequence extractor

This project models the core of `pdb2fasta`, which turns the text of a
Protein Data Bank (PDB) coordinate file into a FASTA amino-acid sequence. The
core has three parts:

- **The residue code table** (`ResidueTable`). This is a fixed, case-sensitive,
  exact-match map from the twenty canonical three-letter residue names to
  one-letter codes. Any other name reads as `'X'`.
- **The per-record handler** (`FastaSpec.Step`, `SequenceExtractor.Extractor.HandleRecord`).
  An ATOM or HETATM record is skipped when its alternate-location indicator is
  present and not `'A'`, or when its atom name is non-empty and not `"CA"`.
  A HETATM record is also skipped when its residue name is non-empty and not
  `"MSE"`. A record that passes does three things: it writes a
  `>pdb:<chain>` header line when its chain differs from the previous-chain
  cursor, it moves the cursor, and it appends one letter. Only the ATOM path
  reports an unknown residue name on the diagnostic channel.
- **The driver loop** (`SequenceExtractor.PdbToFasta`). It walks the
  document's lines in order and starts the cursor at a blank. It skips lines
  shorter than six characters and lines the record parser rejects. It stops
  at the first ENDMDL, so only the first model is converted.

The pure specification is a fold, `FastaSpec.Fold`, of `Step` over the record
stream. The imperative model follows the code's own structure. `class Extractor`
holds the output sink and the cursor as fields that its method updates in place,
and `PdbToFasta` is a `while` loop with `continue` and `break`. Both are proved
equal to the fold. `FastaFormat` then proves what the fold's output is as a
FASTA document. It is the rendering of the maximal same-chain runs of the
qualifying residues, in document order. A chain that comes back after another
chain opens a new block, and a leading run on the blank chain has no header.

Two behaviours of the code are easy to miss:

- `"MSE"` is not in the table (`src/lib.rs:10-29`), so a qualifying
  selenomethionine HETATM appends `'X'`, not `'M'` (`src/lib.rs:78`).
- The cursor starts at `' '` (`src/lib.rs:87`). A leading run of records on
  the blank chain therefore opens no header. Once another chain has
  qualified, a blank-chain record opens a header like any other chain change.

## Model

| member | source | states |
|---|---|---|
| ResidueTable.Aa3to1 | src/lib.rs:34-36 | the lookup is total; it returns `'X'` exactly when the name is not one of the table's keys, and every result is an upper-case letter |
| ResidueTable.Aa3to1CanonicalAlaToMet | src/lib.rs:10-14 | ALA, VAL, PHE, PRO and MET map to A, V, F, P and M |
| ResidueTable.Aa3to1CanonicalIleToLys | src/lib.rs:15-19 | ILE, LEU, ASP, GLU and LYS map to I, L, D, E and K |
| ResidueTable.Aa3to1CanonicalArgToHis | src/lib.rs:20-24 | ARG, SER, THR, TYR and HIS map to R, S, T, Y and H |
| ResidueTable.Aa3to1CanonicalCysToGly | src/lib.rs:25-29 | CYS, ASN, GLN, TRP and GLY map to C, N, Q, W and G |
| ResidueTable.Aa3to1Unknowns | src/lib.rs:127-133 | "OTO", "MSE", the empty name and "ZZZ" all read as `'X'` |
| ResidueTable.Aa3to1WrongLength | src/lib.rs:34-36 | a name that is not exactly three characters long reads as `'X'` |
| ResidueTable.Aa3to1CaseSensitive | src/lib.rs:34-36 | a name containing any character other than an upper-case ASCII letter reads as `'X'`, so matching is case-sensitive |
| ResidueTable.TermsAreUpperCase | src/lib.rs:10-29 | every key of the table is spelled in upper-case ASCII letters |
| ResidueTable.Aa3to1Injective | src/lib.rs:10-29 | two names with the same known one-letter code are the same name |
| FastaSpec.Step | src/lib.rs:38-84 | one handled record extends the output and diagnostics as prefixes; a non-qualifying record changes nothing; a qualifying one moves the cursor to its chain and lengthens the output |
| FastaSpec.Fold | src/lib.rs:88-104 | handling a record stream only appends to the output and to the diagnostics |
| FastaSpec.OtherIgnored | src/lib.rs:82 | a record other than ATOM or HETATM leaves the whole state unchanged |
| FastaSpec.AtomContributesIff | src/lib.rs:48-50 | an ATOM record leaves the state unchanged exactly when its alt-loc is present and not 'A' or its name is non-empty and not "CA" |
| FastaSpec.HetatmContributesIff | src/lib.rs:68-73 | a HETATM record leaves the state unchanged exactly when it fails the alt-loc, the name or the MSE residue-name test |
| FastaSpec.HetatmAppendsUnknown | src/lib.rs:78-79 | a qualifying HETATM always appends `'X'` and never adds a diagnostic |
| FastaSpec.AtomDiagnosesIffUnknown | src/lib.rs:56-59 | a qualifying ATOM record adds its residue name to the diagnostics exactly when the lookup yields `'X'`, and adds nothing otherwise |
| FastaSpec.HeaderOnChainChange | src/lib.rs:51-54 | a qualifying record writes the header and then its letter exactly when its chain differs from the cursor, and only its letter otherwise; the cursor then holds its chain |
| FastaSpec.FoldSnoc | src/lib.rs:88-104 | handling one more record after an ENDMDL-free prefix is one more step of the handler |
| FastaSpec.FoldStopsAtEndmdl | src/lib.rs:98 | nothing after the first ENDMDL affects the output, the cursor or the diagnostics |
| FastaSpec.FoldDiagnostics | src/lib.rs:56-59 | the diagnostics of a run are exactly the unknown residue names of its qualifying ATOM records before the first ENDMDL, in order |
| FastaSpec.FirstRecordOpensHeader | src/lib.rs:87 | because the cursor starts blank, a stream whose first record qualifies on a non-blank chain begins with that chain's header |
| FastaFormat.RunsUngroup | src/lib.rs:51-60 | grouping residues into same-chain runs loses, adds and reorders nothing |
| FastaFormat.RunsUngroupCons | src/lib.rs:51-60 | putting one residue in front of a list keeps the property that its runs stand for exactly its residues |
| FastaFormat.RunsAreMaximal | src/lib.rs:51-54 | runs are non-empty, neighbouring runs have different chains, and the first run has the first residue's chain |
| FastaFormat.RenderAfterCons | src/lib.rs:51-60 | rendering after a cursor writes a residue's header only when its chain differs from the cursor, then its letter, then the rest rendered after its chain |
| FastaFormat.FoldRendersRuns | src/lib.rs:86-104 | the output of any run is the old output followed by the FASTA rendering of the maximal same-chain runs of its qualifying residues |
| FastaFormat.FoldEndsOnLastChain | src/lib.rs:51-52 | after a run the cursor holds the chain of the last qualifying residue, or its old value if nothing qualified |
| FastaFormat.ExtractIsFasta | src/lib.rs:86-107 | a whole conversion writes one header-led block per maximal same-chain run; when the first residue is not on the blank chain, every block has its header |
| SequenceExtractor.Extractor.constructor | src/lib.rs:87 | a fresh run has an empty sink, a blank cursor and no diagnostics |
| SequenceExtractor.Extractor.HandleRecord | src/lib.rs:38-84 | the in-place handler moves the sink, the cursor and the diagnostics exactly as one step of the fold, with the skip, header and append cases spelled out |
| SequenceExtractor.SkippedLineIgnored | src/lib.rs:89-95 | a line shorter than six characters, or one the parser rejects, converts exactly as if it were absent |
| SequenceExtractor.PdbToFasta | src/lib.rs:86-107 | the driver loop returns the fold of the handler over the parsed records (so it stops at the first ENDMDL), together with the diagnostics of that fold |
| ConversionExamples.AltLocExample | src/lib.rs:48-50 | ALA on chain A followed by an alternate-location-B atom converts to `>pdb:A` then `A` |
| ConversionExamples.ReopenedChain | src/lib.rs:51-54 | qualifying records on chains a, b, a give three headers: a chain that comes back is not merged |
| ConversionExamples.SelenomethionineExample | src/lib.rs:70-79 | ALA followed by a selenomethionine HETATM converts to `>pdb:A` then `AX`, with no diagnostic |
| ConversionExamples.UnknownResidueExample | src/lib.rs:56-60 | an unknown residue converts to `>pdb:A` then `X` and reports its name once |
| ConversionExamples.FirstModelOnlyExample | src/lib.rs:98 | ALA on chain A, ENDMDL, then GLY on chain B converts to `>pdb:A` then `A` |
| ConversionExamples.BlankChainOpensNoHeader | src/lib.rs:51-54 | a first qualifying record on the blank chain is written without a header, and the next chain then opens its own |
| ConversionExamples.BlankChainExample | src/lib.rs:87 | ALA on the blank chain followed by GLY on chain B converts to `A`, then `>pdb:B`, then `G` |

## Left out

- The fixed-column record parser (`knuckles_parse`'s `Record::try_from`, `src/lib.rs:1`, `src/lib.rs:92`) is not part of this model. `PdbToFasta` takes it as a function parameter `parse`, and `Record` keeps only the fields the extractor reads.
- Splitting the document into lines (`contents.lines()`) is not modelled. `PdbToFasta` receives the lines already split.
- Line length is counted in characters, while the code's `line.len()` counts UTF-8 bytes. The two agree on the ASCII text PDB files hold.
- `PdbToFasta`: the `unwrap` of the chain id, which panics when it is missing, becomes the precondition `ChainIdsPresent`. It covers every ATOM and HETATM record before the first ENDMDL, and the panic path itself is not modelled.
- Write errors, their propagation with `?`, and the final `flush` are left out. The sink used in practice is an in-memory buffer, so writes are modelled as infallible appends to a string.
- The WebAssembly entry point `pdb_to_fasta_js` and its UTF-8 conversion (`src/lib.rs:109-114`) are host glue and are left out.
- The lazy, thread-safe table initialisation (`OnceLock`) is left out. The table is a constant map.
- The table's values are one-character strings in the code; the model uses `char`.
- Diagnostics printed to standard error are modelled only as a ghost list of residue names. The message text is not modelled.
- The sink starts empty in `PdbToFasta`. A caller-supplied sink with existing contents is covered only by the spec lemmas, which take any starting state.
