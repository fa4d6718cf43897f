# MISO core: read coverage, insert lengths and constitutive exons, in Dafny

This project models three parts of MISO (Mixture of Isoforms).

- **Sashimi-plot densities** (`readsToWiggle`). Per-base read coverage of a locus and the splice junctions seen in the reads. Each read spreads a weight of 1 over its aligned bases. A junction is counted under the key `"donor:acceptor"` when both splice sites lie in the locus. Also modelled: the splice-site lists of the transcripts, and the count of transcripts that hold both sites of a junction.
- **Paired-end insert lengths** (`pe_utils.py`):
  - reading the GFF intervals a tagBam-annotated read lands in, from its YB tag;
  - keeping the mate pairs that lie in one and the same constitutive exon, each as one run of matches, and recording their insert lengths per interval;
  - the tab-separated table those lengths are written as.
- **Constitutive exons** (`exon_utils.py`):
  - the exons of a gene's first transcript that occur in every other transcript, with a minimum length;
  - the `GeneParent` attribute written on those exon records in place;
  - the accumulation over all genes;
  - the tagBam command line.

The modules:

- `Text`: Python's `str(int)`, `int(str)`, `str.split` and `str.join` on Dafny strings, with the round trips the rest relies on.
- `PlotGene`, in `plot_gene.dfy`.
  - `ExtractFrom`/`Extract` is a pure specification: the left fold of `ReadStep` over the reads.
  - `ReadsToWiggle` is the imperative loop over a coverage `array<real>`, proved equal to that fold.
  - Lemmas state coverage as a per-base sum of read contributions, the exact junction counts, the round trip of junction keys, and that the result does not depend on the order of the reads.
  - Unspliced reads never cover the last base of the locus, because their slice stops at `len(wiggle) - 1` (`LastBaseUntouchedByUnsplicedReads`).
- `PeUtils`, in `pe_utils.dfy`.
  - `Estimate` is the specification fold and `ComputeInsertsFromPairedMates` the loop proved against it.
  - `OutputInsertLenDist` builds the table text. `InsertTableRoundTrip` shows that the table reads back to the items it was written from.
- `ExonUtils`, in `exon_utils.dfy`. Exon records are a class: start, end and strand are constant, and the attribute map is updated in place. The loops of `is_exon_in_mRNA`, `get_const_exons_from_mRNA` and `get_const_exons_by_gene` are methods proved against `InMRna`, `ConstExons` and `ConstExonsOfGenes`. They also state their effect on the exon attributes: `GetConstExonsByGene` gives every exon's final attribute map as the fold `TagsAfter` over the genes, and lemmas about that fold say which gene's tag an exon ends with.

Source paths below are relative to the MISO repository. `plot_gene.py` is `misopy/sashimi_plot/plot_utils/plot_gene.py`. Functions that only compute (`DecodeCigar`, `ExtractFrom`, `ParseRegion`, `ClassifyPair`, `Select`, `TagBamCmd` and the like) are specified by the lemmas and methods in the rows that name them.

## Model

| member | source | states |
|---|---|---|
| PlotGene.DecodeCigarNonNegative | misopy/sashimi_plot/plot_utils/plot_gene.py:280-288 | The two CIGAR decodings (`int(cigar[:-1])`, and the split on N then M) never yield a negative length for SAM CIGAR text. |
| PlotGene.DecodeWithoutN | misopy/sashimi_plot/plot_utils/plot_gene.py:280-281 | A CIGAR without `N` is never read as spliced. |
| PlotGene.DecodeUnsplicedCigar | misopy/sashimi_plot/plot_utils/plot_gene.py:280-281 | `DecodeCigar` reads `<len><op>` (op not `N`) back as an unspliced read of length len. |
| PlotGene.DecodeSplicedCigar | misopy/sashimi_plot/plot_utils/plot_gene.py:285-288 | `DecodeCigar` reads `<left>M<gap>N<right><op>` (op not `N`) back as the spliced read (left, gap, right). |
| PlotGene.SumAddOnRange | misopy/sashimi_plot/plot_utils/plot_gene.py:284 | Adding v on w bases inside the track raises its total by exactly w·v. |
| PlotGene.InsideUnsplicedReadAddsOne | misopy/sashimi_plot/plot_utils/plot_gene.py:280-284 | An unspliced read inside the locus, short of its last base, adds exactly 1 to total coverage (len · 1/len). |
| PlotGene.SumAddOnRangeOfRead | misopy/sashimi_plot/plot_utils/plot_gene.py:284 | Spreading `1./rlen` over rlen bases inside the track adds exactly 1 to its total. |
| PlotGene.UnsplicedAsWrittenAgreesWithoutWrap | misopy/sashimi_plot/plot_utils/plot_gene.py:282-284 | The slice update as written, with Python's negative-index semantics, equals the clipped update for every read that does not end before the locus. |
| PlotGene.UnsplicedSliceWrapsAround | misopy/sashimi_plot/plot_utils/plot_gene.py:282-284 | Counterexample: a read wholly before the locus still adds coverage to offsets 0..39 as written; the clipped update adds none. |
| PlotGene.UnsplicedCoverageStaysOnRead | misopy/sashimi_plot/plot_utils/plot_gene.py:282-284 | The corrected update adds 1/len exactly on the read's bases inside the locus, short of the last base, and nowhere else. A read ending before the locus changes nothing. |
| PlotGene.SplicedBlockSliceIsPlain | misopy/sashimi_plot/plot_utils/plot_gene.py:296-299 | For a block passing the guard, the bounds `max(s,0)` and `min(e,len)` are already in range, so Python's slice normalisation leaves them alone. |
| PlotGene.SliceAdd | misopy/sashimi_plot/plot_utils/plot_gene.py:297 | `wiggle[s:e] += v` keeps the array length. |
| PlotGene.JunctionKeyRoundTrip | misopy/sashimi_plot/plot_utils/plot_gene.py:308 | Splitting a key on `:` and `int()`-ing both halves, as done at line 72, gives back the donor and acceptor it was built from. |
| PlotGene.JunctionKeyInjective | misopy/sashimi_plot/plot_utils/plot_gene.py:308-312 | Distinct (donor, acceptor) pairs never share a key, so counts of different junctions are never merged. |
| PlotGene.ReadStep | misopy/sashimi_plot/plot_utils/plot_gene.py:279-312 | One read keeps the track length. It fails only with a malformed-CIGAR error or a zero read length (`1./rlen`) for that read. |
| PlotGene.ExtractFrom | misopy/sashimi_plot/plot_utils/plot_gene.py:276-278 | A successful run returns a track of exactly `tx_end - tx_start + 1` bases. |
| PlotGene.ExtractFromStep | misopy/sashimi_plot/plot_utils/plot_gene.py:278-279 | Loop-proof helper: each iteration of the read loop is one more ReadStep on the accumulated state. |
| PlotGene.ExtractErrorAborts | misopy/sashimi_plot/plot_utils/plot_gene.py:278-299 | An exception on one read ends the whole call: every longer prefix fails with the same error. |
| PlotGene.ReadStepCoverage | misopy/sashimi_plot/plot_utils/plot_gene.py:280-299 | One read adds exactly its contribution at every base: 1/len on its unspliced extent, 1/(left+right) on each guarded block of a spliced read. |
| PlotGene.SplicedStepCoverage | misopy/sashimi_plot/plot_utils/plot_gene.py:289-299 | For a spliced read, each block whose guard holds adds 1/(left+right) on exactly its own bases; a block failing its guard adds nothing. |
| PlotGene.ExtractCoverage | misopy/sashimi_plot/plot_utils/plot_gene.py:273-314 | The returned coverage at every base is the sum over reads of their contributions (`TotalContribution`). |
| PlotGene.ExtractOkIffAccepted | misopy/sashimi_plot/plot_utils/plot_gene.py:278-299 | A run raises exactly when some read is rejected on its own (undecodable CIGAR, or `1./rlen` with rlen 0 on a block that is added). |
| PlotGene.TotalContributionRemove | misopy/sashimi_plot/plot_utils/plot_gene.py:278-299 | Taking one read out of the reads removes exactly its contribution from the coverage sum. |
| PlotGene.TotalContributionPermutation | misopy/sashimi_plot/plot_utils/plot_gene.py:278-299 | Any reordering of the reads gives the same coverage sum at every base. |
| PlotGene.SupportRemove | misopy/sashimi_plot/plot_utils/plot_gene.py:301-312 | Taking one read out removes exactly its vote from the count of a junction. |
| PlotGene.SupportPermutation | misopy/sashimi_plot/plot_utils/plot_gene.py:301-312 | Any reordering of the reads gives the same count for every junction. |
| PlotGene.ExtractPermutation | misopy/sashimi_plot/plot_utils/plot_gene.py:273-314 | When a run succeeds, any reordering of the same reads also succeeds, with the same coverage track and the same junction map. |
| PlotGene.ContributionNonNegative | misopy/sashimi_plot/plot_utils/plot_gene.py:284-299 | No read subtracts coverage. |
| PlotGene.TotalContributionNonNegative | misopy/sashimi_plot/plot_utils/plot_gene.py:278-299 | The summed contributions of any reads are non-negative. |
| PlotGene.ExtractTrackShape | misopy/sashimi_plot/plot_utils/plot_gene.py:276-299 | The result has `tx_end - tx_start + 1` entries, none negative. |
| PlotGene.UnsplicedContributionMissesLastBase | misopy/sashimi_plot/plot_utils/plot_gene.py:283 | An unspliced read contributes nothing at the last base, because its slice stops at `len(wiggle) - 1`. |
| PlotGene.UnsplicedMissLastBase | misopy/sashimi_plot/plot_utils/plot_gene.py:280-284 | Reads without `N` sum to 0 at the last base. |
| PlotGene.LastBaseUntouchedByUnsplicedReads | misopy/sashimi_plot/plot_utils/plot_gene.py:273-284 | When no read is spliced, the last base of the returned coverage is 0. |
| PlotGene.ReadStepJunctions | misopy/sashimi_plot/plot_utils/plot_gene.py:301-312 | A read bumps the count of its junction exactly when both splice sites lie in the locus, whatever its blocks contributed. |
| PlotGene.JunctionCounts | misopy/sashimi_plot/plot_utils/plot_gene.py:301-312 | After a run, the key of (donor, acceptor) is present exactly when some read records that junction, and its count is the number of such reads. |
| PlotGene.JunctionKeysParse | misopy/sashimi_plot/plot_utils/plot_gene.py:308 | Every stored key parses back, with line 72's split, to the splice sites it names. |
| PlotGene.JunctionCountsPositive | misopy/sashimi_plot/plot_utils/plot_gene.py:309-312 | Every stored count is at least 1. |
| PlotGene.AddToSlice | misopy/sashimi_plot/plot_utils/plot_gene.py:284 | The in-place `+=` on an array slice adds v exactly on the clipped range. |
| PlotGene.AddRead | misopy/sashimi_plot/plot_utils/plot_gene.py:279-312 | The imperative loop body updates the array and junction map exactly as ReadStep does, or reports ReadStep's error. |
| PlotGene.AddSplicedRead | misopy/sashimi_plot/plot_utils/plot_gene.py:286-312 | The spliced branch of the loop body updates the array and junction map exactly as ReadStep does, or reports the zero-length error. |
| PlotGene.AddBlockInPlace | misopy/sashimi_plot/plot_utils/plot_gene.py:296-299 | The guarded in-place `+=` of one block leaves the array equal to AddBlock of its old contents. |
| PlotGene.ReadsToWiggle | misopy/sashimi_plot/plot_utils/plot_gene.py:273-314 | The imperative function returns a fresh array and map equal to Extract's result, or Extract's error. |
| PlotGene.SpliceSitesMembership | misopy/sashimi_plot/plot_utils/plot_gene.py:64-69 | A position is in a transcript's flattened list exactly when one of its exons starts or ends there. |
| PlotGene.SpliceSiteLists | misopy/sashimi_plot/plot_utils/plot_gene.py:64-69 | `sslists` has one flattened list per transcript, in order. |
| PlotGene.IsoformsWithBothExtremes | misopy/sashimi_plot/plot_utils/plot_gene.py:80-84 | The count is at most the number of transcripts. It equals that number exactly when all transcripts hold both sites, and 0 exactly when none does. |
| PlotGene.NumIsoforms | misopy/sashimi_plot/plot_utils/plot_gene.py:80-84 | The loop counts the transcripts holding both splice sites, never more than there are. |
| PeUtils.ParseRegionsIds | pe_utils.py:64-78 | The regions parse exactly when each does: one id per region, in order, each the `chrom:start-end:strand` of its region. Otherwise the error is that of a failing region. |
| PeUtils.CollectIdsOk | pe_utils.py:64-78 | The loop over parsed regions succeeds exactly when no region raised. |
| PeUtils.CollectIdsOkIds | pe_utils.py:72-77 | On success there is one id per region, in order, each built from its region's interval. |
| PeUtils.CollectIdsErr | pe_utils.py:64-69 | On failure the error is one that some region raised. |
| PeUtils.ParseTagBamIntervalsIds | pe_utils.py:59-78 | No YB tag raises. Otherwise the ids correspond one to one, in order, to the `gff:` segments after the first. |
| PeUtils.GffCoordsShiftStart | pe_utils.py:70-71 | gff_coords accepts the same regions and only moves the start by one. |
| PeUtils.ParseRegionText | pe_utils.py:65-76 | Parsing `chrom:start-end,name,score,strand` gives back its interval (start + 1 under gff_coords) when the fields hold no separators. |
| PeUtils.PairOutcomeOf | pe_utils.py:105-146 | A pair is skipped exactly when one of the four conditions fails. It is an error exactly when it passes and `right_end - left_start + 1 <= 0`. Otherwise it is kept with that positive insert length under the single shared interval. |
| PeUtils.Estimate | pe_utils.py:90-147 | On success every pair is counted once, as kept or as skipped. |
| PeUtils.EstimateDists | pe_utils.py:90-146 | A region is a key exactly when some kept pair lies in it. Its list holds those pairs' insert lengths in pair order. |
| PeUtils.KeptInsertsPositive | pe_utils.py:143-146 | Every recorded insert length is positive. |
| PeUtils.EstimateInsertsPositive | pe_utils.py:143-146 | Every list in the result is non-empty and holds only positive lengths. |
| PeUtils.TotalLengthAppend | pe_utils.py:146 | One append adds exactly one length to the map's total. |
| PeUtils.EstimateTotal | pe_utils.py:146-147 | The lists hold `num_kept` lengths in all. |
| PeUtils.EstimateStep | pe_utils.py:93-147 | Loop-proof helper: each iteration of the pair loop is one more ClassifyPair/Record step. |
| PeUtils.EstimateErrorAborts | pe_utils.py:143-145 | A non-positive insert, or a tag that fails to parse, ends the whole call. |
| PeUtils.ExaminePair | pe_utils.py:94-141 | The skip chain and insert computation of one iteration produce ClassifyPair's outcome. |
| PeUtils.DecidePair | pe_utils.py:103-146 | The `to_skip` chain and the insert computation on the mates' ids give PairOutcomeOf's outcome: skipped, an error for a non-positive insert, or kept under the shared id. |
| PeUtils.RecordOutcome | pe_utils.py:121-147 | Recording a decided pair increments `num_skipped`, or appends the insert to its region's list and increments `num_kept`, exactly as Record does. |
| PeUtils.ComputeInsertsFromPairedMates | pe_utils.py:81-152 | The loop returns Estimate's map and counts, or Estimate's error. |
| PeUtils.OutputInsertLenDist | pe_utils.py:216-231 | The text written is the header followed by one `region\tl1,l2,...` line per item, for any items: the dictionary's entries are an input in any order, not tied to `Estimate`'s map. |
| PeUtils.ParseIntsOfStrings | pe_utils.py:227 | `int()` of each `str(l)` gives the lengths back. |
| PeUtils.ParseLensOfJoin | pe_utils.py:227 | The comma-joined lengths split and parse back to the lengths. |
| PeUtils.ParseRowOfRow | pe_utils.py:228 | A row reads back to its region and lengths, and holds no newline. |
| PeUtils.SplitRows | pe_utils.py:226-229 | The rows split on newline into one text per item plus a trailing empty piece. |
| PeUtils.ParseRowTexts | pe_utils.py:226-229 | The row texts parse back to the items. |
| PeUtils.InsertTableRoundTrip | pe_utils.py:222-229 | Reading back the written table gives exactly the items when no region contains a tab or newline. |
| ExonUtils.IsExonInMRna | exon_utils.py:14-34 | Returns true exactly when the transcript has an exon list holding an exon with the same start, end and strand. |
| ExonUtils.InAllOtherMRnas | exon_utils.py:63-70 | The inner loop answers true exactly when the exon occurs in every transcript after the first. |
| ExonUtils.ExamineExon | exon_utils.py:56-76 | One exon: kept exactly when Selected holds; tagged with `GeneParent = [gene]` exactly when it is at least min_size long. |
| ExonUtils.SelectAndTag | exon_utils.py:55-78 | The loop over the first transcript's exons returns exactly Select of them and leaves every one of them tagged as Tagged says, duplicates included. |
| ExonUtils.SelectMembership | exon_utils.py:55-76 | An exon is kept exactly when it is in the first transcript's list, is at least min_size long, and (unless all_constitutive) occurs in every other transcript. |
| ExonUtils.SelectIsSubsequence | exon_utils.py:55-76 | The kept exons sit at strictly increasing positions of the first transcript's list, so its order is kept. |
| ExonUtils.AllConstitutiveSelectsBySize | exon_utils.py:58-63 | With all_constitutive, exactly the exons of at least min_size are kept, whatever the other transcripts are. |
| ExonUtils.SharedExonsAllConstitutive | exon_utils.py:63-70 | When every exon of the list has an exon with the same start, end and strand in every other transcript, the selection equals the all_constitutive one. |
| ExonUtils.IdenticalTranscriptsAllConstitutive | exon_utils.py:55-76 | When every other transcript lists exons with the first one's coordinates, position by position (distinct records allowed), the result equals the all_constitutive one. |
| ExonUtils.GetConstExonsFromMRna | exon_utils.py:37-78 | Returns ConstExons: an error for an empty transcript list, nothing when the first transcript has no exons. Every exon of at least min_size gets `GeneParent = [gene]`, kept or not; the others are unchanged. |
| ExonUtils.ConstExonsOfGenesAborts | exon_utils.py:248-253 | An error from one gene ends the whole loop. |
| ExonUtils.GetConstExonsByGene | exon_utils.py:244-254 | Returns the concatenation of every gene's constitutive exons, in gene order. `num_exons` is its length, and every exon in it carries a GeneParent. Every exon record ends with the attributes `TagsAfter` gives from its old ones. |
| ExonUtils.TagsAfterUntouched | exon_utils.py:244-254 | An exon shorter than min_size, or listed by no gene's first transcript, keeps its attributes. |
| ExonUtils.TagsAfterOnlyGeneParent | exon_utils.py:74 | No attribute other than GeneParent ever changes. |
| ExonUtils.TagsAfterLastGene | exon_utils.py:244-254 | An exon at least min_size long ends with `GeneParent = [gene]` for the last gene whose first transcript lists it. |
| ExonUtils.TagBamCmdStages | exon_utils.py:126-150 | Fails exactly for only_interval without as_sam. Otherwise the command starts with the tagBam call, ends with the egrep filter exactly under only_interval, and otherwise ends with the samtools stage exactly under as_sam. |

## Left out

- Plotting, axis scaling, Bézier curves and the compressed-wiggle averaging are display code and floating-point geometry.
- The numpy float32 coverage array is modelled with exact reals, so rounding is not modelled.
- PlotGene.ReadStep / PlotGene.ReadsToWiggle: the unspliced update is the clipped one (`UnsplicedCoverage`), not the wrap-around of negative slice ends at plot_gene.py:282-284; the code as written is `UnsplicedCoverageAsWritten`, and the difference is the finding below.
- The two parallel lists `read_positions` and `read_cigars` are one sequence of reads, so the `IndexError` raised when the CIGAR list is the shorter one is not modelled.
- Which read's error a failing run reports depends on the order of the reads; `ExtractPermutation` speaks of successful runs only.
- Exceptions abort: the code lets a malformed CIGAR, a zero read length or a non-positive insert raise out of the whole call. A per-record error count is not kept, and the model follows the code: the first such read or pair ends the call with an error.
- `int()` is modelled without surrounding white space and without underscores. CIGAR lengths and tag coordinates never contain those.
- `bam_read.opt("YB")` is an `Option<string>` input. Reading BAM files, pairing mates (pysam, sam_utils) and `GFFDatabase` loading are not part of this model.
- `sam_utils.cigar_to_end_coord` is a function parameter (`endCoord`), since its definition is not part of this model. The unused `left_end` computation is dropped.
- Dictionary iteration order (`iteritems()` over pairs, regions and genes) is an input sequence. Nothing is claimed about the order of rows in the written table.
- The file open, write and close of `output_insert_len_dist` are replaced by the text returned. `output_exons_to_file` and its in-place `recs.reverse()` are left out because they only serve the file write.
- Shell and subprocess helpers (`bedtools_map_bam_to_bed`, `map_bam2gff`, `compute_insert_len`, `load_insert_dist`) are not modelled. Neither are `get_bam_reads_in_exons` and `summarize_insert_len_dists`, which refer to undefined names, or the commented-out code.
- Command-line entry points, `print` lines and timing are not modelled. The `num_kept`/`num_skipped` counts that are only printed are returned instead.
- Exon records model only what the core touches: start, end, strand and the attribute map. Record aliasing is allowed: a record listed by the first transcripts of several genes ends with the tag of the last of them (`TagsAfterLastGene`). When a gene raises, the state of the records it leaves behind is not stated.

## Findings

| source | as written | input that shows it | evidently intended | confidence | as-written member | corrected member |
|---|---|---|---|---|---|---|
| misopy/sashimi_plot/plot_utils/plot_gene.py:282-284 | `e = min(pos - tx_start + rlen, len(wiggle) - 1)` is negative for a read that ends before the locus, and `wiggle[s:e]` then counts e from the end of the array | read `10M` at position 80, locus 100..149: e = -10 wraps to 40, so offsets 0..39 gain 0.1 | a read outside the locus adds no coverage (the spliced branch guards each block for this) | not executed | PlotGene.UnsplicedSliceWrapsAround | PlotGene.UnsplicedCoverageStaysOnRead |
