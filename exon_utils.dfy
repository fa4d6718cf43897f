/** Constitutive exon selection (misopy exon_utils.py): which exons of a gene's first
    transcript occur, by coordinates and strand, in every other transcript; the
    GeneParent tag written on the exon records; the per-gene accumulation; and the
    tagBam command line. */
module ExonUtils {
  import opened Text

  /** A GFF exon record. Its coordinates and strand never change; its attribute
      dictionary is updated in place. */
  class Exon {
    const start: int
    const end: int
    const strand: string
    var attributes: map<string, seq<string>>

    constructor (start: int, end: int, strand: string, attributes: map<string, seq<string>>)
      ensures this.start == start && this.end == end && this.strand == strand
      ensures this.attributes == attributes
    {
      this.start := start;
      this.end := end;
      this.strand := strand;
      this.attributes := attributes;
    }
  }

  /** A GFF mRNA record: get_id() and get_parent(). */
  datatype MRna = MRna(id: string, parent: string)

  /** gff_in.exons_by_mRNA: the exon records of each transcript id. */
  type ExonIndex = map<string, seq<Exon>>

  const GeneParent: string := "GeneParent"

  /** exon.end - exon.start + 1 */
  function ExonLength(e: Exon): int
  {
    e.end - e.start + 1
  }

  /** Two exon records describe the same exon: same start, end and strand. */
  predicate SameExon(a: Exon, b: Exon)
  {
    a.start == b.start && a.end == b.end && a.strand == b.strand
  }

  /** The transcript has an exon list holding an exon equal to e by SameExon. */
  predicate InMRna(db: ExonIndex, e: Exon, mRNA: MRna)
  {
    mRNA.id in db && exists j :: 0 <= j < |db[mRNA.id]| && SameExon(db[mRNA.id][j], e)
  }

  /** is_exon_in_mRNA: scans the transcript's exons and stops at the first match. */
  method IsExonInMRna(db: ExonIndex, exon: Exon, mRNA: MRna) returns (found: bool)
    ensures found <==> InMRna(db, exon, mRNA)
  {
    if mRNA.id !in db {
      return false;
    }
    var exons := db[mRNA.id];
    for j := 0 to |exons|
      invariant forall k :: 0 <= k < j ==> !SameExon(exons[k], exon)
    {
      var curr := exons[j];
      if curr.start == exon.start && curr.end == exon.end && curr.strand == exon.strand {
        return true;
      }
    }
    return false;
  }

  // ---------------------------------------------------------------------------
  // The constitutive exons of one gene

  /** An exon of the first transcript is selected when it is at least minSize long
      and, unless every exon counts as constitutive, occurs in every other transcript. */
  predicate Selected(db: ExonIndex, mRNAs: seq<MRna>, minSize: int, allConstitutive: bool, e: Exon)
  {
    ExonLength(e) >= minSize &&
    (allConstitutive || forall k :: 1 <= k < |mRNAs| ==> InMRna(db, e, mRNAs[k]))
  }

  /** The selected exons of a list, in list order. */
  function Select(db: ExonIndex, mRNAs: seq<MRna>, minSize: int, allConstitutive: bool, exons: seq<Exon>): seq<Exon>
    decreases |exons|
  {
    if exons == [] then []
    else
      var last := exons[|exons| - 1];
      Select(db, mRNAs, minSize, allConstitutive, exons[..|exons| - 1]) +
      (if Selected(db, mRNAs, minSize, allConstitutive, last) then [last] else [])
  }

  /** The exon list of the first transcript, empty when it has none. */
  function FirstExons(db: ExonIndex, mRNAs: seq<MRna>): seq<Exon>
  {
    if |mRNAs| > 0 && mRNAs[0].id in db then db[mRNAs[0].id] else []
  }

  /** get_const_exons_from_mRNA's result: None for an empty transcript list (the
      IndexError of mRNAs[0]); no exons when the first transcript has no exon list. */
  function ConstExons(db: ExonIndex, mRNAs: seq<MRna>, minSize: int, allConstitutive: bool): Option<seq<Exon>>
  {
    if |mRNAs| == 0 then None
    else Some(Select(db, mRNAs, minSize, allConstitutive, FirstExons(db, mRNAs)))
  }

  /** An exon is in the selection exactly when it is in the list and selected. */
  lemma {:induction false} SelectMembership(db: ExonIndex, mRNAs: seq<MRna>, minSize: int, allConstitutive: bool, exons: seq<Exon>)
    ensures forall e :: e in Select(db, mRNAs, minSize, allConstitutive, exons) <==>
      e in exons && Selected(db, mRNAs, minSize, allConstitutive, e)
    decreases |exons|
  {
    if exons != [] {
      var m := |exons| - 1;
      SelectMembership(db, mRNAs, minSize, allConstitutive, exons[..m]);
      assert exons == exons[..m] + [exons[m]];
    }
  }

  /** The positions in the list of the selected exons. */
  function SelectIndices(db: ExonIndex, mRNAs: seq<MRna>, minSize: int, allConstitutive: bool, exons: seq<Exon>): seq<int>
    decreases |exons|
  {
    if exons == [] then []
    else
      var m := |exons| - 1;
      SelectIndices(db, mRNAs, minSize, allConstitutive, exons[..m]) +
      (if Selected(db, mRNAs, minSize, allConstitutive, exons[m]) then [m] else [])
  }

  /** The selection is a subsequence of the list: its exons sit at strictly increasing
      positions of the list, so the original order is kept. */
  lemma {:induction false} SelectIsSubsequence(db: ExonIndex, mRNAs: seq<MRna>, minSize: int, allConstitutive: bool, exons: seq<Exon>)
    ensures var sel, idx := Select(db, mRNAs, minSize, allConstitutive, exons), SelectIndices(db, mRNAs, minSize, allConstitutive, exons);
      |idx| == |sel| &&
      (forall k :: 0 <= k < |idx| ==> 0 <= idx[k] < |exons| && sel[k] == exons[idx[k]]) &&
      (forall k, l :: 0 <= k < l < |idx| ==> idx[k] < idx[l])
    decreases |exons|
  {
    if exons != [] {
      var m := |exons| - 1;
      SelectIsSubsequence(db, mRNAs, minSize, allConstitutive, exons[..m]);
    }
  }

  /** With all_constitutive the result is every exon of the first transcript that is at
      least minSize long, whatever the other transcripts hold. */
  lemma {:induction false} AllConstitutiveSelectsBySize(db: ExonIndex, mRNAs: seq<MRna>, minSize: int, exons: seq<Exon>)
    ensures forall e :: e in Select(db, mRNAs, minSize, true, exons) <==> e in exons && ExonLength(e) >= minSize
    ensures forall other: seq<MRna> :: Select(db, mRNAs, minSize, true, exons) == Select(db, other, minSize, true, exons)
    decreases |exons|
  {
    SelectMembership(db, mRNAs, minSize, true, exons);
    if exons != [] {
      AllConstitutiveSelectsBySize(db, mRNAs, minSize, exons[..|exons| - 1]);
    }
  }

  /** When every exon of the list occurs, with the same coordinates, in every other
      transcript, every one of them is constitutive: the selection is the same as with
      all_constitutive. */
  lemma {:induction false} SharedExonsAllConstitutive(db: ExonIndex, mRNAs: seq<MRna>, minSize: int, exons: seq<Exon>)
    requires forall k, e :: 1 <= k < |mRNAs| && e in exons ==> InMRna(db, e, mRNAs[k])
    ensures Select(db, mRNAs, minSize, false, exons) == Select(db, mRNAs, minSize, true, exons)
    decreases |exons|
  {
    if exons != [] {
      var m := |exons| - 1;
      assert forall e :: e in exons[..m] ==> e in exons;
      SharedExonsAllConstitutive(db, mRNAs, minSize, exons[..m]);
      assert exons[m] in exons;
    }
  }

  /** Two exon lists holding the same coordinates position by position, whether or
      not the records are the same objects. */
  predicate SameExons(xs: seq<Exon>, ys: seq<Exon>)
  {
    |xs| == |ys| && forall j :: 0 <= j < |xs| ==> SameExon(xs[j], ys[j])
  }

  /** When every other transcript lists exons with the first one's coordinates, every
      exon is constitutive: the result is the same as with all_constitutive. */
  lemma IdenticalTranscriptsAllConstitutive(db: ExonIndex, mRNAs: seq<MRna>, minSize: int)
    requires |mRNAs| > 0 && mRNAs[0].id in db
    requires forall k :: 1 <= k < |mRNAs| ==> mRNAs[k].id in db && SameExons(db[mRNAs[k].id], db[mRNAs[0].id])
    ensures ConstExons(db, mRNAs, minSize, false) == ConstExons(db, mRNAs, minSize, true)
  {
    var first := db[mRNAs[0].id];
    forall k, e | 1 <= k < |mRNAs| && e in first ensures InMRna(db, e, mRNAs[k]) {
      var j :| 0 <= j < |first| && first[j] == e;
      assert SameExon(db[mRNAs[k].id][j], e);
    }
    SharedExonsAllConstitutive(db, mRNAs, minSize, first);
  }

  /** The new attribute dictionary of an exon of the first transcript: GeneParent is
      set to [geneId] on every exon long enough, selected or not. */
  function Tagged(attributes: map<string, seq<string>>, e: Exon, minSize: int, geneId: string): map<string, seq<string>>
  {
    if ExonLength(e) >= minSize then attributes[GeneParent := [geneId]] else attributes
  }

  /** The inner loop of get_const_exons_from_mRNA: the exon occurs in every mRNA after
      the first, stopping at the first one that lacks it. */
  method InAllOtherMRnas(db: ExonIndex, exon: Exon, mRNAs: seq<MRna>) returns (all: bool)
    ensures all <==> forall k :: 1 <= k < |mRNAs| ==> InMRna(db, exon, mRNAs[k])
  {
    var j := 1;
    while j < |mRNAs|
      invariant 1 <= j <= Max(1, |mRNAs|)
      invariant forall k :: 1 <= k < j ==> InMRna(db, exon, mRNAs[k])
    {
      var found := IsExonInMRna(db, exon, mRNAs[j]);
      if !found {
        return false;
      }
      j := j + 1;
    }
    return true;
  }

  /** One pass of the loop of get_const_exons_from_mRNA over the exon: an exon shorter
      than minSize is skipped untouched; any other is tagged with its gene and kept
      when it is constitutive. */
  method ExamineExon(db: ExonIndex, mRNAs: seq<MRna>, minSize: int, allConstitutive: bool, exon: Exon, geneId: string)
    returns (keep: bool)
    modifies exon
    ensures keep <==> Selected(db, mRNAs, minSize, allConstitutive, exon)
    ensures exon.attributes == Tagged(old(exon.attributes), exon, minSize, geneId)
  {
    var exonLen := exon.end - exon.start + 1;
    if exonLen < minSize {
      return false;
    }
    keep := true;
    if !allConstitutive {
      keep := InAllOtherMRnas(db, exon, mRNAs);
    }
    exon.attributes := exon.attributes[GeneParent := [geneId]];
  }

  /** get_const_exons_from_mRNA: filters the first transcript's exons, tagging each one
      that passes the size filter with its gene. */
  method GetConstExonsFromMRna(db: ExonIndex, mRNAs: seq<MRna>, minSize: int, allConstitutive: bool)
    returns (constExons: Option<seq<Exon>>)
    modifies FirstExons(db, mRNAs)
    ensures constExons == ConstExons(db, mRNAs, minSize, allConstitutive)
    ensures forall e :: e in FirstExons(db, mRNAs) ==>
      e.attributes == Tagged(old(e.attributes), e, minSize, mRNAs[0].parent)
  {
    if |mRNAs| == 0 {
      return None;
    }
    var geneId := mRNAs[0].parent;
    var mRNAId := mRNAs[0].id;
    if mRNAId !in db {
      return Some([]);
    }
    var selected := SelectAndTag(db, mRNAs, minSize, allConstitutive, db[mRNAId], geneId);
    return Some(selected);
  }

  /** The loop of get_const_exons_from_mRNA over the exons of the first transcript. */
  method SelectAndTag(db: ExonIndex, mRNAs: seq<MRna>, minSize: int, allConstitutive: bool, exons: seq<Exon>, geneId: string)
    returns (selected: seq<Exon>)
    modifies exons
    ensures selected == Select(db, mRNAs, minSize, allConstitutive, exons)
    ensures forall e :: e in exons ==> e.attributes == Tagged(old(e.attributes), e, minSize, geneId)
  {
    selected := [];
    ghost var visited: set<Exon> := {};
    for i := 0 to |exons|
      invariant selected == Select(db, mRNAs, minSize, allConstitutive, exons[..i])
      invariant forall j :: 0 <= j < i ==> exons[j] in visited
      invariant forall e :: e in exons ==>
        e.attributes == if e in visited then Tagged(old(e.attributes), e, minSize, geneId) else old(e.attributes)
    {
      var exon := exons[i];
      assert exons[..i + 1] == exons[..i] + [exon];
      ghost var before := exon.attributes;
      var constExon := ExamineExon(db, mRNAs, minSize, allConstitutive, exon, geneId);
      assert exon.attributes == Tagged(old(exon.attributes), exon, minSize, geneId) by {
        if exon in visited {
          assert before == Tagged(old(exon.attributes), exon, minSize, geneId);
        }
      }
      visited := visited + {exon};
      if constExon {
        selected := selected + [exon];
      }
    }
    assert exons[..|exons|] == exons;
  }

  // ---------------------------------------------------------------------------
  // All genes

  /** const_exons_by_gene over the genes in the order the dictionary hands them out:
      the concatenation of each gene's result; None when a gene's call raises. */
  function ConstExonsOfGenes(db: ExonIndex, genes: seq<seq<MRna>>, minSize: int, allConstitutive: bool): Option<seq<Exon>>
    decreases |genes|
  {
    if genes == [] then Some([])
    else
      match (ConstExonsOfGenes(db, genes[..|genes| - 1], minSize, allConstitutive),
             ConstExons(db, genes[|genes| - 1], minSize, allConstitutive))
      case (Some(before), Some(these)) => Some(before + these)
      case _ => None
  }

  /** The attributes of exon e after the genes have been processed in order, starting
      from attrs: every gene whose first transcript lists e tags it again, so the tag
      of the last such gene is the one that stays. */
  function TagsAfter(db: ExonIndex, attrs: map<string, seq<string>>, e: Exon, genes: seq<seq<MRna>>, minSize: int)
    : map<string, seq<string>>
    decreases |genes|
  {
    if genes == [] then attrs
    else
      var before := TagsAfter(db, attrs, e, genes[..|genes| - 1], minSize);
      var last := genes[|genes| - 1];
      if e in FirstExons(db, last) then Tagged(before, e, minSize, last[0].parent) else before
  }

  /** An exon shorter than minSize, or one that no gene's first transcript lists,
      keeps its attributes. */
  lemma {:induction false} TagsAfterUntouched(db: ExonIndex, attrs: map<string, seq<string>>, e: Exon, genes: seq<seq<MRna>>, minSize: int)
    requires ExonLength(e) < minSize || forall g :: 0 <= g < |genes| ==> e !in FirstExons(db, genes[g])
    ensures TagsAfter(db, attrs, e, genes, minSize) == attrs
    decreases |genes|
  {
    if genes != [] {
      var m := |genes| - 1;
      assert forall g :: 0 <= g < m ==> genes[..m][g] == genes[g];
      TagsAfterUntouched(db, attrs, e, genes[..m], minSize);
    }
  }

  /** Only GeneParent ever changes: every other attribute keeps its value. */
  lemma {:induction false} TagsAfterOnlyGeneParent(db: ExonIndex, attrs: map<string, seq<string>>, e: Exon, genes: seq<seq<MRna>>, minSize: int)
    ensures var after := TagsAfter(db, attrs, e, genes, minSize);
      forall key :: key != GeneParent ==> (key in after <==> key in attrs) && (key in attrs ==> after[key] == attrs[key])
    decreases |genes|
  {
    if genes != [] {
      TagsAfterOnlyGeneParent(db, attrs, e, genes[..|genes| - 1], minSize);
    }
  }

  /** An exon at least minSize long ends up with the GeneParent of the last gene whose
      first transcript lists it. */
  lemma {:induction false} TagsAfterLastGene(db: ExonIndex, attrs: map<string, seq<string>>, e: Exon, genes: seq<seq<MRna>>, minSize: int, g: nat)
    requires g < |genes| && e in FirstExons(db, genes[g]) && ExonLength(e) >= minSize
    requires forall h :: g < h < |genes| ==> e !in FirstExons(db, genes[h])
    ensures var after := TagsAfter(db, attrs, e, genes, minSize);
      GeneParent in after && after[GeneParent] == [genes[g][0].parent]
    decreases |genes|
  {
    var m := |genes| - 1;
    if g < m {
      assert forall h :: g < h < m ==> genes[..m][h] == genes[h];
      TagsAfterLastGene(db, attrs, e, genes[..m], minSize, g);
    }
  }

  /** One more gene: the fold takes one more step. */
  lemma TagsAfterStep(db: ExonIndex, attrs: map<string, seq<string>>, e: Exon, genes: seq<seq<MRna>>, g: nat, minSize: int)
    requires g < |genes|
    ensures TagsAfter(db, attrs, e, genes[..g + 1], minSize) ==
      var before := TagsAfter(db, attrs, e, genes[..g], minSize);
      if e in FirstExons(db, genes[g]) then Tagged(before, e, minSize, genes[g][0].parent) else before
  {
    assert genes[..g + 1][..g] == genes[..g];
  }

  /** Every exon record of the index. */
  function AllExons(db: ExonIndex): set<Exon>
  {
    set id, e | id in db && e in db[id] :: e
  }

  /** The accumulation loop of get_const_exons_by_gene: extends the list gene by gene
      and counts its exons; every exon collected carries a GeneParent. */
  method GetConstExonsByGene(db: ExonIndex, genes: seq<seq<MRna>>, minSize: int, allConstitutive: bool)
    returns (constExonsByGene: seq<Exon>, numExons: nat, failed: bool)
    modifies AllExons(db)
    ensures failed <==> ConstExonsOfGenes(db, genes, minSize, allConstitutive).None?
    ensures !failed ==> ConstExonsOfGenes(db, genes, minSize, allConstitutive) == Some(constExonsByGene)
    ensures !failed ==> numExons == |constExonsByGene|
    ensures !failed ==> forall e :: e in constExonsByGene ==> GeneParent in e.attributes
    ensures !failed ==> forall e :: e in AllExons(db) ==> e.attributes == TagsAfter(db, old(e.attributes), e, genes, minSize)
  {
    constExonsByGene, numExons, failed := [], 0, false;
    for g := 0 to |genes|
      invariant ConstExonsOfGenes(db, genes[..g], minSize, allConstitutive) == Some(constExonsByGene)
      invariant numExons == |constExonsByGene|
      invariant forall e :: e in constExonsByGene ==> GeneParent in e.attributes
      invariant forall e :: e in AllExons(db) ==> e.attributes == TagsAfter(db, old(e.attributes), e, genes[..g], minSize)
    {
      var mRNAs := genes[g];
      assert genes[..g + 1][..g] == genes[..g];
      if |mRNAs| > 0 && mRNAs[0].id in db {
        forall e | e in db[mRNAs[0].id] ensures e in AllExons(db) {
        }
      }
      label before:
      var currConstExons := GetConstExonsFromMRna(db, mRNAs, minSize, allConstitutive);
      if currConstExons.None? {
        failed := true;
        ConstExonsOfGenesAborts(db, genes, minSize, allConstitutive, g + 1);
        return;
      }
      forall e | e in AllExons(db)
        ensures e.attributes == TagsAfter(db, old(e.attributes), e, genes[..g + 1], minSize)
      {
        TagsAfterStep(db, old(e.attributes), e, genes, g, minSize);
        assert old@before(e.attributes) == TagsAfter(db, old(e.attributes), e, genes[..g], minSize);
      }
      SelectMembership(db, mRNAs, minSize, allConstitutive, FirstExons(db, mRNAs));
      constExonsByGene := constExonsByGene + currConstExons.value;
      numExons := numExons + |currConstExons.value|;
    }
    assert genes[..|genes|] == genes;
  }

  /** A gene whose call raises ends the whole loop. */
  lemma {:induction false} ConstExonsOfGenesAborts(db: ExonIndex, genes: seq<seq<MRna>>, minSize: int, allConstitutive: bool, j: nat)
    requires j <= |genes| && ConstExonsOfGenes(db, genes[..j], minSize, allConstitutive).None?
    ensures ConstExonsOfGenes(db, genes, minSize, allConstitutive).None?
    decreases |genes| - j
  {
    if j < |genes| {
      assert genes[..j + 1][..j] == genes[..j];
      ConstExonsOfGenesAborts(db, genes, minSize, allConstitutive, j + 1);
    } else {
      assert genes[..j] == genes;
    }
  }

  // ---------------------------------------------------------------------------
  // The tagBam command line

  datatype CmdError = OnlyIntervalWithoutSam  // the assert of get_tagBam_cmd

  function TagBamInvocation(bamFilename: string, intervalLabel: string, gffFilename: string): string
  {
    "tagBam -i " + bamFilename + " -files " + gffFilename + " -labels " + intervalLabel + " -intervals -f 1"
  }

  const SamtoolsStage: string := " | samtools view - -h"

  function EgrepStage(intervalLabel: string): string
  {
    " | egrep '^@|:" + intervalLabel + ":'"
  }

  /** get_tagBam_cmd */
  function TagBamCmd(bamFilename: string, intervalLabel: string, gffFilename: string, asSam: bool, onlyInterval: bool)
    : Result<string, CmdError>
  {
    var cmd := TagBamInvocation(bamFilename, intervalLabel, gffFilename);
    var cmd := if asSam then cmd + SamtoolsStage else cmd;
    if onlyInterval then
      if !asSam then Err(OnlyIntervalWithoutSam) else Ok(cmd + EgrepStage(intervalLabel))
    else Ok(cmd)
  }

  predicate EndsWith(s: string, suffix: string)
  {
    |suffix| <= |s| && s[|s| - |suffix|..] == suffix
  }

  /** The command fails exactly for only_interval without as_sam. Otherwise it starts
      with the tagBam invocation, and the stages piped after it can be read back off
      its end: the egrep filter is there exactly when only_interval is set, and
      otherwise the samtools stage ends it exactly when as_sam is set. */
  lemma TagBamCmdStages(bamFilename: string, intervalLabel: string, gffFilename: string, asSam: bool, onlyInterval: bool)
    ensures TagBamCmd(bamFilename, intervalLabel, gffFilename, asSam, onlyInterval).Err? <==> onlyInterval && !asSam
    ensures var r := TagBamCmd(bamFilename, intervalLabel, gffFilename, asSam, onlyInterval);
      var base := TagBamInvocation(bamFilename, intervalLabel, gffFilename);
      r.Ok? ==>
        |base| <= |r.value| && r.value[..|base|] == base &&
        (EndsWith(r.value, EgrepStage(intervalLabel)) <==> onlyInterval) &&
        (!onlyInterval ==> (EndsWith(r.value, SamtoolsStage) <==> asSam)) &&
        (onlyInterval ==> r.value == base + SamtoolsStage + EgrepStage(intervalLabel))
  {
    var r := TagBamCmd(bamFilename, intervalLabel, gffFilename, asSam, onlyInterval);
    var base := TagBamInvocation(bamFilename, intervalLabel, gffFilename);
    var egrep := EgrepStage(intervalLabel);
    if r.Ok? {
      var cmd := r.value;
      assert cmd[..|base|] == base;
      if onlyInterval {
        assert cmd[|cmd| - |egrep|..] == egrep;
      } else {
        // The command ends in '1' or 'h'; the egrep stage ends in a quote.
        assert cmd[|cmd| - 1] == '1' || cmd[|cmd| - 1] == 'h';
        assert egrep[|egrep| - 1] == '\'';
        if asSam {
          assert cmd[|cmd| - |SamtoolsStage|..] == SamtoolsStage;
        } else {
          assert cmd[|cmd| - 1] == '1';
          assert SamtoolsStage[|SamtoolsStage| - 1] == 'h';
        }
      }
    }
  }
}
