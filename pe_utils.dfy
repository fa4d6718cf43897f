/** Paired-end insert-length estimation (misopy pe_utils.py): the GFF intervals a
    tagBam-annotated read lands in, the insert length of mate pairs that land wholly
    inside one constitutive exon, and the tab-separated table the lengths are
    written out as. */
module PeUtils {
  import opened Text

  // ---------------------------------------------------------------------------
  // The YB tag of tagBam

  /** One GFF interval named in a YB tag. */
  datatype Interval = Interval(chrom: string, start: int, end: int, strand: string)

  /** "%s:%d-%d:%s" % (chrom, start, end, strand): the interval id used as a key. */
  function IntervalId(iv: Interval): string
  {
    iv.chrom + ":" + IntToString(iv.start) + "-" + IntToString(iv.end) + ":" + iv.strand
  }

  /** The exceptions parse_tagBam_intervals can raise. */
  datatype TagError =
    | MissingTag                  // bam_read.opt("YB") on a read without the tag
    | MalformedRegion(region: string)  // an IndexError, unpacking or int() failure on a region

  /** One region of the tag, "chrom:start-end,field,field,strand,...": the strand is the
      fourth comma field; the first must split on ':' into exactly two parts and the
      second of these on '-' into exactly two integers. With gffCoords the start is
      shifted by one. */
  function ParseRegion(region: string, gffCoords: bool): Result<Interval, TagError>
  {
    var fields := Split(region, ",");
    if |fields| < 4 then Err(MalformedRegion(region))
    else
      var strand := fields[3];
      var chromCoord := Split(fields[0], ":");
      if |chromCoord| != 2 then Err(MalformedRegion(region))
      else
        var bounds := Split(chromCoord[1], "-");
        if |bounds| != 2 then Err(MalformedRegion(region))
        else
          match (ParseInt(bounds[0]), ParseInt(bounds[1]))
          case (Some(start), Some(end)) =>
            Ok(Interval(chromCoord[0], if gffCoords then start + 1 else start, end, strand))
          case _ => Err(MalformedRegion(region))
  }

  /** The loop of parse_tagBam_intervals over the regions as parsed: one id per region,
      in order; the first region that raised ends the call. */
  function CollectIds(parsed: seq<Result<Interval, TagError>>): Result<seq<string>, TagError>
    decreases |parsed|
  {
    if parsed == [] then Ok([])
    else
      match parsed[0]
      case Err(e) => Err(e)
      case Ok(iv) =>
        match CollectIds(parsed[1..])
        case Err(e) => Err(e)
        case Ok(ids) => Ok([IntervalId(iv)] + ids)
  }

  /** Each region parsed, then collected. */
  function ParseRegions(regions: seq<string>, gffCoords: bool): Result<seq<string>, TagError>
  {
    CollectIds(seq(|regions|, i requires 0 <= i < |regions| => ParseRegion(regions[i], gffCoords)))
  }

  /** The collection succeeds exactly when every region parsed. */
  lemma {:induction false} CollectIdsOk(parsed: seq<Result<Interval, TagError>>)
    ensures CollectIds(parsed).Ok? <==> forall i :: 0 <= i < |parsed| ==> parsed[i].Ok?
    decreases |parsed|
  {
    if parsed != [] {
      CollectIdsOk(parsed[1..]);
      assert forall i :: 1 <= i < |parsed| ==> parsed[i] == parsed[1..][i - 1];
    }
  }

  /** A successful collection holds the id of each region's interval, in order. */
  lemma {:induction false} CollectIdsOkIds(parsed: seq<Result<Interval, TagError>>)
    requires CollectIds(parsed).Ok?
    ensures var ids := CollectIds(parsed).value;
      |ids| == |parsed| &&
      forall i :: 0 <= i < |parsed| ==> parsed[i].Ok? && ids[i] == IntervalId(parsed[i].value)
    decreases |parsed|
  {
    if parsed != [] {
      CollectIdsOkIds(parsed[1..]);
      assert forall i :: 1 <= i < |parsed| ==> parsed[i] == parsed[1..][i - 1];
    }
  }

  /** A failed collection reports the error of a region that raised. */
  lemma {:induction false} CollectIdsErr(parsed: seq<Result<Interval, TagError>>)
    requires CollectIds(parsed).Err?
    ensures exists j :: 0 <= j < |parsed| && parsed[j] == Err(CollectIds(parsed).error)
    decreases |parsed|
  {
    var rest := parsed[1..];
    if parsed[0].Ok? {
      CollectIdsErr(rest);
      var j :| 0 <= j < |rest| && rest[j] == Err(CollectIds(rest).error);
      assert parsed[j + 1] == rest[j];
    }
  }

  /** The regions parse exactly when each of them does, into one id per region in the
      same order; otherwise the error is that of a region that fails. */
  lemma ParseRegionsIds(regions: seq<string>, gffCoords: bool)
    ensures ParseRegions(regions, gffCoords).Ok? <==> forall i :: 0 <= i < |regions| ==> ParseRegion(regions[i], gffCoords).Ok?
    ensures ParseRegions(regions, gffCoords).Ok? ==>
      var ids := ParseRegions(regions, gffCoords).value;
      |ids| == |regions| &&
      forall i :: 0 <= i < |regions| ==> ids[i] == IntervalId(ParseRegion(regions[i], gffCoords).value)
    ensures ParseRegions(regions, gffCoords).Err? ==>
      exists j :: 0 <= j < |regions| && ParseRegion(regions[j], gffCoords) == Err(ParseRegions(regions, gffCoords).error)
  {
    var parsed := seq(|regions|, i requires 0 <= i < |regions| => ParseRegion(regions[i], gffCoords));
    assert ParseRegions(regions, gffCoords) == CollectIds(parsed);
    assert |parsed| == |regions| && forall i :: 0 <= i < |regions| ==> parsed[i] == ParseRegion(regions[i], gffCoords);
    CollectIdsOk(parsed);
    if CollectIds(parsed).Ok? {
      CollectIdsOkIds(parsed);
    } else {
      CollectIdsErr(parsed);
      var j :| 0 <= j < |parsed| && parsed[j] == Err(CollectIds(parsed).error);
      assert ParseRegion(regions[j], gffCoords) == Err(ParseRegions(regions, gffCoords).error);
    }
  }

  /** parse_tagBam_intervals(bam_read, gff_coords): yb is the read's YB tag, None when
      the read has none; every "gff:"-separated segment after the first is a region. */
  function ParseTagBamIntervals(yb: Option<string>, gffCoords: bool): Result<seq<string>, TagError>
  {
    match yb
    case None => Err(MissingTag)
    case Some(text) => ParseRegions(Split(text, "gff:")[1..], gffCoords)
  }

  /** A read without the tag raises; otherwise the tag yields one id per "gff:" segment
      after the first, in order, exactly when every such segment parses. */
  lemma ParseTagBamIntervalsIds(yb: Option<string>, gffCoords: bool)
    ensures yb.None? ==> ParseTagBamIntervals(yb, gffCoords) == Err(MissingTag)
    ensures yb.Some? ==>
      var regions := Split(yb.value, "gff:")[1..];
      (ParseTagBamIntervals(yb, gffCoords).Ok? <==> forall i :: 0 <= i < |regions| ==> ParseRegion(regions[i], gffCoords).Ok?) &&
      (ParseTagBamIntervals(yb, gffCoords).Ok? ==>
        |ParseTagBamIntervals(yb, gffCoords).value| == |regions| &&
        forall i :: 0 <= i < |regions| ==>
          ParseTagBamIntervals(yb, gffCoords).value[i] == IntervalId(ParseRegion(regions[i], gffCoords).value))
  {
    if yb.Some? {
      ParseRegionsIds(Split(yb.value, "gff:")[1..], gffCoords);
    }
  }

  /** gff_coords only moves the start: both settings accept the same regions, and the
      interval read with it is the one read without it, one base later. */
  lemma GffCoordsShiftStart(region: string)
    ensures ParseRegion(region, true).Ok? <==> ParseRegion(region, false).Ok?
    ensures ParseRegion(region, true).Ok? ==>
      var plain := ParseRegion(region, false).value;
      ParseRegion(region, true).value == plain.(start := plain.start + 1)
  {
  }

  /** "start-end" */
  function BoundsText(iv: Interval): string
  {
    IntToString(iv.start) + "-" + IntToString(iv.end)
  }

  /** The region text tagBam writes for an interval: "chrom:start-end,name,score,strand". */
  function RegionText(iv: Interval, name: string, score: string): string
  {
    Join([iv.chrom + ":" + BoundsText(iv), name, score, iv.strand], ",")
  }

  lemma NoSeparatorInNat(n: int, c: char)
    requires n >= 0 && !IsDigit(c)
    ensures c !in IntToString(n)
  {
  }

  lemma BoundsTextSplits(iv: Interval)
    requires iv.start >= 0 && iv.end >= 0
    ensures Split(BoundsText(iv), "-") == [IntToString(iv.start), IntToString(iv.end)]
    ensures ':' !in BoundsText(iv) && ',' !in BoundsText(iv)
  {
    var s, e := IntToString(iv.start), IntToString(iv.end);
    NoSeparatorInNat(iv.start, '-'); NoSeparatorInNat(iv.end, '-');
    NoSeparatorInNat(iv.start, ':'); NoSeparatorInNat(iv.end, ':');
    NoSeparatorInNat(iv.start, ','); NoSeparatorInNat(iv.end, ',');
    JoinTwo(s, e, "-");
    SplitJoin([s, e], "-");
  }

  lemma RegionTextSplits(iv: Interval, name: string, score: string)
    requires iv.start >= 0 && iv.end >= 0
    requires ':' !in iv.chrom && ',' !in iv.chrom && ',' !in name && ',' !in score && ',' !in iv.strand
    ensures Split(RegionText(iv, name, score), ",") == [iv.chrom + ":" + BoundsText(iv), name, score, iv.strand]
    ensures Split(iv.chrom + ":" + BoundsText(iv), ":") == [iv.chrom, BoundsText(iv)]
  {
    var bounds := BoundsText(iv);
    BoundsTextSplits(iv);
    assert ',' !in iv.chrom + ":" + bounds;
    SplitJoin([iv.chrom + ":" + bounds, name, score, iv.strand], ",");
    JoinTwo(iv.chrom, bounds, ":");
    SplitJoin([iv.chrom, bounds], ":");
  }

  /** Parsing the text of a region gives back its interval, with the start shifted by
      one under gff_coords, provided no field contains the separators. */
  lemma ParseRegionText(iv: Interval, name: string, score: string)
    requires iv.start >= 0 && iv.end >= 0
    requires ':' !in iv.chrom && ',' !in iv.chrom && ',' !in name && ',' !in score && ',' !in iv.strand
    ensures ParseRegion(RegionText(iv, name, score), false) == Ok(iv)
    ensures ParseRegion(RegionText(iv, name, score), true) == Ok(iv.(start := iv.start + 1))
  {
    RegionTextSplits(iv, name, score);
    BoundsTextSplits(iv);
    ParseIntToString(iv.start);
    ParseIntToString(iv.end);
  }

  // ---------------------------------------------------------------------------
  // Insert lengths of mate pairs

  /** One CIGAR operation of a pysam read: operation code (0 is M) and length. */
  datatype CigarOp = CigarOp(op: int, len: int)

  /** What compute_inserts_from_paired_mates reads of a mate: its 0-based start, its
      CIGAR operations and its YB tag. */
  datatype Mate = Mate(pos: int, cigar: seq<CigarOp>, yb: Option<string>)

  datatype MatePair = MatePair(left: Mate, right: Mate)

  /** The exceptions that end the call. */
  datatype InsertError =
    | TagFailure(cause: TagError)       // parse_tagBam_intervals raised
    | NonPositiveInsert(region: string) // insert_len <= 0 in this region

  /** The four conditions under which a pair is used: each mate lies in exactly one
      interval, the same one, and each is one run of matches. */
  predicate UsablePair(leftIds: seq<string>, rightIds: seq<string>, p: MatePair)
  {
    |leftIds| == 1 && |rightIds| == 1 && leftIds[0] == rightIds[0] &&
    |p.left.cigar| == 1 && |p.right.cigar| == 1 &&
    p.left.cigar[0].op == 0 && p.right.cigar[0].op == 0
  }

  datatype PairOutcome = Skipped | Kept(region: string, insert: int)

  /** The decision for a pair whose mates lie in the intervals leftIds and rightIds:
      skipped unless the four conditions hold, else kept with its insert length
      right_end - left_start + 1 under the shared interval, an error when that length
      is not positive. endCoord is sam_utils.cigar_to_end_coord. */
  function PairOutcomeOf(leftIds: seq<string>, rightIds: seq<string>, p: MatePair,
                         endCoord: (int, seq<CigarOp>) -> int): (r: Result<PairOutcome, InsertError>)
    ensures r == Ok(Skipped) <==> !UsablePair(leftIds, rightIds, p)
    ensures r.Err? <==> UsablePair(leftIds, rightIds, p) && endCoord(p.right.pos, p.right.cigar) - p.left.pos + 1 <= 0
    ensures r.Err? ==> r.error == NonPositiveInsert(leftIds[0])
    ensures r.Ok? && r.value.Kept? ==>
      r.value.insert > 0 &&
      r.value.insert == endCoord(p.right.pos, p.right.cigar) - p.left.pos + 1 &&
      leftIds == [r.value.region] && rightIds == [r.value.region] &&
      p.left.cigar == [CigarOp(0, p.left.cigar[0].len)] && p.right.cigar == [CigarOp(0, p.right.cigar[0].len)]
  {
    if !UsablePair(leftIds, rightIds, p) then Ok(Skipped)
    else
      var insert := endCoord(p.right.pos, p.right.cigar) - p.left.pos + 1;
      assert leftIds == [leftIds[0]] && rightIds == [leftIds[0]];
      assert p.left.cigar == [p.left.cigar[0]] && p.right.cigar == [p.right.cigar[0]];
      if insert <= 0 then Err(NonPositiveInsert(leftIds[0])) else Ok(Kept(leftIds[0], insert))
  }

  /** One iteration of compute_inserts_from_paired_mates: both mates' intervals are
      parsed (with gff_coords), then the pair is decided. */
  function ClassifyPair(p: MatePair, endCoord: (int, seq<CigarOp>) -> int): Result<PairOutcome, InsertError>
  {
    match ParseTagBamIntervals(p.left.yb, true)
    case Err(e) => Err(TagFailure(e))
    case Ok(leftIds) =>
      match ParseTagBamIntervals(p.right.yb, true)
      case Err(e) => Err(TagFailure(e))
      case Ok(rightIds) => PairOutcomeOf(leftIds, rightIds, p, endCoord)
  }

  /** interval_to_paired_dists, num_kept and num_skipped. */
  datatype Inserts = Inserts(dists: map<string, seq<int>>, kept: nat, skipped: nat)

  /** interval_to_paired_dists[region].append(x) on a defaultdict(list). */
  function Append(dists: map<string, seq<int>>, region: string, x: int): map<string, seq<int>>
  {
    dists[region := (if region in dists then dists[region] else []) + [x]]
  }

  function Record(acc: Inserts, o: PairOutcome): Inserts
  {
    match o
    case Skipped => acc.(skipped := acc.skipped + 1)
    case Kept(region, x) => acc.(dists := Append(acc.dists, region, x), kept := acc.kept + 1)
  }

  /** compute_inserts_from_paired_mates over pairs, in the order the dictionary hands
      them out: the left fold of ClassifyPair and Record; the first exception ends it.
      Every pair is counted once, as kept or as skipped. */
  function Estimate(pairs: seq<MatePair>, endCoord: (int, seq<CigarOp>) -> int): (r: Result<Inserts, InsertError>)
    ensures r.Ok? ==> r.value.kept + r.value.skipped == |pairs|
    decreases |pairs|
  {
    if pairs == [] then Ok(Inserts(map[], 0, 0))
    else
      match Estimate(pairs[..|pairs| - 1], endCoord)
      case Err(e) => Err(e)
      case Ok(acc) =>
        match ClassifyPair(pairs[|pairs| - 1], endCoord)
        case Err(e) => Err(e)
        case Ok(o) => Ok(Record(acc, o))
  }

  /** The insert lengths of the kept pairs in region, in the order of the pairs. */
  function KeptInserts(pairs: seq<MatePair>, endCoord: (int, seq<CigarOp>) -> int, region: string): seq<int>
    decreases |pairs|
  {
    if pairs == [] then []
    else
      KeptInserts(pairs[..|pairs| - 1], endCoord, region) +
      match ClassifyPair(pairs[|pairs| - 1], endCoord)
      case Ok(Kept(r, x)) => if r == region then [x] else []
      case _ => []
  }

  /** After a successful run a region is a key exactly when some kept pair lies in it,
      and its list holds the insert lengths of those pairs in order. */
  lemma {:induction false} EstimateDists(pairs: seq<MatePair>, endCoord: (int, seq<CigarOp>) -> int)
    requires Estimate(pairs, endCoord).Ok?
    ensures var dists := Estimate(pairs, endCoord).value.dists;
      forall region ::
        (region in dists <==> KeptInserts(pairs, endCoord, region) != []) &&
        (region in dists ==> dists[region] == KeptInserts(pairs, endCoord, region))
    decreases |pairs|
  {
    if pairs != [] {
      EstimateDists(pairs[..|pairs| - 1], endCoord);
    }
  }

  /** Every recorded insert length is positive. */
  lemma {:induction false} KeptInsertsPositive(pairs: seq<MatePair>, endCoord: (int, seq<CigarOp>) -> int, region: string)
    ensures forall x :: x in KeptInserts(pairs, endCoord, region) ==> x > 0
    decreases |pairs|
  {
    if pairs != [] {
      KeptInsertsPositive(pairs[..|pairs| - 1], endCoord, region);
    }
  }

  lemma EstimateInsertsPositive(pairs: seq<MatePair>, endCoord: (int, seq<CigarOp>) -> int)
    requires Estimate(pairs, endCoord).Ok?
    ensures var dists := Estimate(pairs, endCoord).value.dists;
      forall region :: region in dists ==> dists[region] != [] && forall x :: x in dists[region] ==> x > 0
  {
    EstimateDists(pairs, endCoord);
    var dists := Estimate(pairs, endCoord).value.dists;
    forall region | region in dists
      ensures dists[region] != [] && forall x :: x in dists[region] ==> x > 0
    {
      KeptInsertsPositive(pairs, endCoord, region);
    }
  }

  /** The number of insert lengths held in all lists of a map. */
  ghost function TotalLength(dists: map<string, seq<int>>): nat
    decreases |dists.Keys|
  {
    if dists == map[] then 0
    else
      var k :| k in dists;
      assert (dists - {k}).Keys == dists.Keys - {k};
      |dists[k]| + TotalLength(dists - {k})
  }

  /** TotalLength does not depend on the key it happens to take first. */
  lemma {:induction false} TotalLengthRemove(dists: map<string, seq<int>>, k: string)
    requires k in dists
    ensures TotalLength(dists) == |dists[k]| + TotalLength(dists - {k})
    decreases |dists.Keys|
  {
    var k' :| k' in dists && TotalLength(dists) == |dists[k']| + TotalLength(dists - {k'});
    if k' != k {
      assert (dists - {k'}).Keys == dists.Keys - {k'};
      assert (dists - {k}).Keys == dists.Keys - {k};
      TotalLengthRemove(dists - {k'}, k);
      TotalLengthRemove(dists - {k}, k');
      assert dists - {k'} - {k} == dists - {k} - {k'};
    }
  }

  lemma TotalLengthAppend(dists: map<string, seq<int>>, region: string, x: int)
    ensures TotalLength(Append(dists, region, x)) == TotalLength(dists) + 1
  {
    var m := Append(dists, region, x);
    TotalLengthRemove(m, region);
    if region in dists {
      TotalLengthRemove(dists, region);
      assert m - {region} == dists - {region};
    } else {
      assert m - {region} == dists;
    }
  }

  /** The lists hold num_kept insert lengths in all. */
  lemma {:induction false} EstimateTotal(pairs: seq<MatePair>, endCoord: (int, seq<CigarOp>) -> int)
    requires Estimate(pairs, endCoord).Ok?
    ensures TotalLength(Estimate(pairs, endCoord).value.dists) == Estimate(pairs, endCoord).value.kept
    decreases |pairs|
  {
    if pairs != [] {
      var acc := Estimate(pairs[..|pairs| - 1], endCoord).value;
      EstimateTotal(pairs[..|pairs| - 1], endCoord);
      match ClassifyPair(pairs[|pairs| - 1], endCoord)
      case Ok(Kept(region, x)) => TotalLengthAppend(acc.dists, region, x);
      case _ =>
    }
  }

  /** One more pair, whose outcome is known: the fold takes one more step. */
  lemma EstimateStep(pairs: seq<MatePair>, i: nat, endCoord: (int, seq<CigarOp>) -> int, outcome: Result<PairOutcome, InsertError>)
    requires i < |pairs| && Estimate(pairs[..i], endCoord).Ok? && outcome == ClassifyPair(pairs[i], endCoord)
    ensures Estimate(pairs[..i + 1], endCoord) ==
      match outcome
      case Err(e) => Err(e)
      case Ok(o) => Ok(Record(Estimate(pairs[..i], endCoord).value, o))
  {
    assert pairs[..i + 1][..i] == pairs[..i];
  }

  /** An exception on some pair ends the whole call: every longer run fails with it. */
  lemma {:induction false} EstimateErrorAborts(pairs: seq<MatePair>, endCoord: (int, seq<CigarOp>) -> int, j: nat)
    requires j <= |pairs| && Estimate(pairs[..j], endCoord).Err?
    ensures Estimate(pairs, endCoord) == Estimate(pairs[..j], endCoord)
    decreases |pairs| - j
  {
    if j < |pairs| {
      assert pairs[..j + 1][..j] == pairs[..j];
      EstimateErrorAborts(pairs, endCoord, j + 1);
    } else {
      assert pairs[..j] == pairs;
    }
  }

  /** The four skip conditions of compute_inserts_from_paired_mates, checked in the
      source's order, and the insert length of a pair that passes them. */
  method DecidePair(leftIds: seq<string>, rightIds: seq<string>, pair: MatePair, endCoord: (int, seq<CigarOp>) -> int)
    returns (outcome: Result<PairOutcome, InsertError>)
    ensures outcome == PairOutcomeOf(leftIds, rightIds, pair, endCoord)
  {
    var toSkip := false;
    if |leftIds| != 1 || |rightIds| != 1 {
      toSkip := true;
    } else if leftIds[0] != rightIds[0] {
      toSkip := true;
    } else if |pair.left.cigar| != 1 || |pair.right.cigar| != 1 {
      toSkip := true;
    } else if pair.left.cigar[0].op != 0 || pair.right.cigar[0].op != 0 {
      toSkip := true;
    }
    if toSkip {
      return Ok(Skipped);
    }
    var region := leftIds[0];
    var insert := endCoord(pair.right.pos, pair.right.cigar) - pair.left.pos + 1;
    if insert <= 0 {
      return Err(NonPositiveInsert(region));
    }
    return Ok(Kept(region, insert));
  }

  /** The body of the loop of compute_inserts_from_paired_mates up to the append: the
      mates' intervals, then the decision. */
  method ExaminePair(pair: MatePair, endCoord: (int, seq<CigarOp>) -> int) returns (outcome: Result<PairOutcome, InsertError>)
    ensures outcome == ClassifyPair(pair, endCoord)
  {
    var leftIds := ParseTagBamIntervals(pair.left.yb, true);
    if leftIds.Err? {
      return Err(TagFailure(leftIds.error));
    }
    var rightIds := ParseTagBamIntervals(pair.right.yb, true);
    if rightIds.Err? {
      return Err(TagFailure(rightIds.error));
    }
    outcome := DecidePair(leftIds.value, rightIds.value, pair, endCoord);
  }

  /** The bookkeeping of one decided pair: num_skipped += 1, or the append to its
      region's list and num_kept += 1. */
  method RecordOutcome(dists: map<string, seq<int>>, kept: nat, skipped: nat, o: PairOutcome)
    returns (dists': map<string, seq<int>>, kept': nat, skipped': nat)
    ensures Inserts(dists', kept', skipped') == Record(Inserts(dists, kept, skipped), o)
  {
    dists', kept', skipped' := dists, kept, skipped;
    match o {
      case Skipped =>
        skipped' := skipped + 1;
      case Kept(region, insert) =>
        var lens := if region in dists then dists[region] else [];
        dists' := dists[region := lens + [insert]];
        kept' := kept + 1;
    }
  }

  /** compute_inserts_from_paired_mates: examines the pairs one by one, counting and
      appending as it goes. */
  method ComputeInsertsFromPairedMates(pairs: seq<MatePair>, endCoord: (int, seq<CigarOp>) -> int)
    returns (dists: map<string, seq<int>>, kept: nat, skipped: nat, error: Option<InsertError>)
    ensures Estimate(pairs, endCoord) == if error.Some? then Err(error.value) else Ok(Inserts(dists, kept, skipped))
  {
    dists, kept, skipped, error := map[], 0, 0, None;
    var i := 0;
    while i < |pairs|
      invariant 0 <= i <= |pairs| && error.None?
      invariant Estimate(pairs[..i], endCoord) == Ok(Inserts(dists, kept, skipped))
    {
      var outcome := ExaminePair(pairs[i], endCoord);
      EstimateStep(pairs, i, endCoord, outcome);
      if outcome.Err? {
        error := Some(outcome.error);
        EstimateErrorAborts(pairs, endCoord, i + 1);
        return;
      }
      dists, kept, skipped := RecordOutcome(dists, kept, skipped, outcome.value);
      i := i + 1;
    }
    assert pairs[..i] == pairs;
  }

  // ---------------------------------------------------------------------------
  // The insert-length table

  const Header: string := "#region\tinsert_len\n"

  function IntStrings(xs: seq<int>): (r: seq<string>)
    ensures |r| == |xs| && forall i :: 0 <= i < |xs| ==> r[i] == IntToString(xs[i])
    decreases |xs|
  {
    if xs == [] then [] else [IntToString(xs[0])] + IntStrings(xs[1..])
  }

  /** "%s\t%s" % (region, ",".join(str(l) for l in insert_lens)), without the newline. */
  function Row(region: string, lens: seq<int>): string
  {
    Join([region, Join(IntStrings(lens), ",")], "\t")
  }

  /** The rows of the table, one per (region, lengths) item, each ended by a newline. */
  function Rows(items: seq<(string, seq<int>)>): string
    decreases |items|
  {
    if items == [] then "" else Row(items[0].0, items[0].1) + "\n" + Rows(items[1..])
  }

  /** The text output_insert_len_dist writes for the items of the map, in the order
      iteritems() hands them out. */
  function InsertTable(items: seq<(string, seq<int>)>): string
  {
    Header + Rows(items)
  }

  lemma {:induction false} RowsSnoc(items: seq<(string, seq<int>)>, item: (string, seq<int>))
    ensures Rows(items + [item]) == Rows(items) + Row(item.0, item.1) + "\n"
    decreases |items|
  {
    if items != [] {
      assert (items + [item])[1..] == items[1..] + [item];
      RowsSnoc(items[1..], item);
    }
  }

  /** output_insert_len_dist with the file replaced by the text written to it. */
  method OutputInsertLenDist(items: seq<(string, seq<int>)>) returns (text: string)
    ensures text == InsertTable(items)
  {
    text := Header;
    for i := 0 to |items|
      invariant text == Header + Rows(items[..i])
    {
      var (region, insertLens) := items[i];
      var strLens := Join(IntStrings(insertLens), ",");
      var outputLine := region + "\t" + strLens + "\n";
      JoinTwo(region, strLens, "\t");
      RowsSnoc(items[..i], items[i]);
      assert items[..i + 1] == items[..i] + [items[i]];
      text := text + outputLine;
    }
    assert items[..|items|] == items;
  }

  // Reading the table back

  function ParseInts(parts: seq<string>): (r: Option<seq<int>>)
    ensures r.Some? ==> |r.value| == |parts|
    decreases |parts|
  {
    if parts == [] then Some([])
    else
      match (ParseInt(parts[0]), ParseInts(parts[1..]))
      case (Some(x), Some(xs)) => Some([x] + xs)
      case _ => None
  }

  /** The lengths of a row: the empty text for no lengths, else comma-separated ints. */
  function ParseLens(s: string): Option<seq<int>>
  {
    if s == "" then Some([]) else ParseInts(Split(s, ","))
  }

  function ParseRow(row: string): Option<(string, seq<int>)>
  {
    var cells := Split(row, "\t");
    if |cells| != 2 then None
    else
      match ParseLens(cells[1])
      case Some(lens) => Some((cells[0], lens))
      case None => None
  }

  function ParseRows(rows: seq<string>): Option<seq<(string, seq<int>)>>
    decreases |rows|
  {
    if rows == [] then Some([])
    else
      match (ParseRow(rows[0]), ParseRows(rows[1..]))
      case (Some(item), Some(items)) => Some([item] + items)
      case _ => None
  }

  /** Reads an insert-length table: the header, then newline-ended rows. */
  function ParseInsertTable(text: string): Option<seq<(string, seq<int>)>>
  {
    if |text| < |Header| || text[..|Header|] != Header then None
    else
      var lines := Split(text[|Header|..], "\n");
      if lines[|lines| - 1] != "" then None
      else ParseRows(lines[..|lines| - 1])
  }

  lemma {:induction false} ParseIntsOfStrings(xs: seq<int>)
    ensures ParseInts(IntStrings(xs)) == Some(xs)
    decreases |xs|
  {
    if xs != [] {
      var strs := IntStrings(xs);
      assert strs[0] == IntToString(xs[0]) && strs[1..] == IntStrings(xs[1..]);
      ParseIntToString(xs[0]);
      ParseIntsOfStrings(xs[1..]);
      ParseIntsCons(strs, xs[0], xs[1..]);
      assert xs == [xs[0]] + xs[1..];
    }
  }

  lemma ParseIntsCons(parts: seq<string>, x: int, xs: seq<int>)
    requires |parts| > 0 && ParseInt(parts[0]) == Some(x) && ParseInts(parts[1..]) == Some(xs)
    ensures ParseInts(parts) == Some([x] + xs)
  {
  }

  /** The characters of a formatted list of lengths: digits, '-' and ','. */
  lemma LensChars(lens: seq<int>)
    ensures forall c :: c in Join(IntStrings(lens), ",") ==> IsDigit(c) || c == '-' || c == ','
  {
    JoinChars(IntStrings(lens), ",");
    forall c | c in Join(IntStrings(lens), ",") ensures IsDigit(c) || c == '-' || c == ',' {
      if c != ',' {
        var p :| p in IntStrings(lens) && c in p;
        var i :| 0 <= i < |lens| && IntStrings(lens)[i] == p;
      }
    }
  }

  lemma ParseLensOfJoin(lens: seq<int>)
    ensures ParseLens(Join(IntStrings(lens), ",")) == Some(lens)
  {
    var strs := IntStrings(lens);
    if lens == [] {
    } else {
      assert |strs[0]| > 0;
      JoinNonEmpty(strs, ",");
      forall p | p in strs ensures ',' !in p {
        var i :| 0 <= i < |lens| && strs[i] == p;
      }
      SplitJoin(strs, ",");
      ParseIntsOfStrings(lens);
    }
  }

  /** A region the table can carry: it has no tab and no newline. */
  predicate PlainRegion(region: string) { '\t' !in region && '\n' !in region }

  lemma ParseRowOfRow(region: string, lens: seq<int>)
    requires PlainRegion(region)
    ensures ParseRow(Row(region, lens)) == Some((region, lens))
    ensures '\n' !in Row(region, lens)
  {
    var joined := Join(IntStrings(lens), ",");
    LensChars(lens);
    SplitJoin([region, joined], "\t");
    ParseLensOfJoin(lens);
    JoinChars([region, joined], "\t");
  }

  /** The rows of the table without their newlines. */
  function RowTexts(items: seq<(string, seq<int>)>): (rows: seq<string>)
    ensures |rows| == |items|
    decreases |items|
  {
    if items == [] then [] else [Row(items[0].0, items[0].1)] + RowTexts(items[1..])
  }

  lemma {:induction false} SplitRows(items: seq<(string, seq<int>)>)
    requires forall i :: 0 <= i < |items| ==> PlainRegion(items[i].0)
    ensures Split(Rows(items), "\n") == RowTexts(items) + [""]
    decreases |items|
  {
    if items == [] {
      SplitWithoutSep("", "\n");
    } else {
      var rest := items[1..];
      SplitRows(rest);
      ParseRowOfRow(items[0].0, items[0].1);
      SplitCons(Row(items[0].0, items[0].1), "\n", Rows(rest));
    }
  }

  lemma {:induction false} ParseRowTexts(items: seq<(string, seq<int>)>)
    requires forall i :: 0 <= i < |items| ==> PlainRegion(items[i].0)
    ensures ParseRows(RowTexts(items)) == Some(items)
    decreases |items|
  {
    if items != [] {
      var rows := RowTexts(items);
      assert rows[0] == Row(items[0].0, items[0].1) && rows[1..] == RowTexts(items[1..]);
      ParseRowTexts(items[1..]);
      ParseRowOfRow(items[0].0, items[0].1);
      assert ParseRows(rows) == Some([items[0]] + items[1..]);
      assert items == [items[0]] + items[1..];
    }
  }

  /** Reading back the table written for the items gives the items, provided no region
      contains a tab or a newline. */
  lemma InsertTableRoundTrip(items: seq<(string, seq<int>)>)
    requires forall i :: 0 <= i < |items| ==> PlainRegion(items[i].0)
    ensures ParseInsertTable(InsertTable(items)) == Some(items)
  {
    var text := InsertTable(items);
    assert text[..|Header|] == Header;
    assert text[|Header|..] == Rows(items);
    SplitRows(items);
    ParseRowTexts(items);
    var rows := RowTexts(items);
    assert (rows + [""])[..|rows|] == rows;
  }
}
