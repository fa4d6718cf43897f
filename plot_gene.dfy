/** Coverage and splice-junction extraction behind the sashimi plots
    (readsToWiggle in misopy/sashimi_plot/plot_utils/plot_gene.py), the
    "donor:acceptor" junction keys, and the count of transcripts that contain
    both splice sites of a junction. Coverage is exact (real), where the
    original accumulates into a float32 array. */
module PlotGene {
  import opened Text

  /** One aligned read as readsToWiggle sees it: read_positions[i] and read_cigars[i]. */
  datatype Read = Read(pos: int, cigar: string)

  /** The two CIGAR shapes readsToWiggle decodes: "<len><op>" without an 'N', and
      "<left>M<gap>N<right><op>". */
  datatype CigarShape =
    | Unspliced(len: int)
    | Spliced(left: int, gap: int, right: int)

  /** The exceptions that end a readsToWiggle call. */
  datatype WiggleError =
    | NegativeLocusLength        // zeros() of a negative size (tx_end < tx_start - 1)
    | MalformedCigar(read: nat)  // int() or a tuple unpacking failed on this read's CIGAR
    | ZeroReadLength(read: nat)  // 1. / rlen with rlen == 0 for this read

  /** What readsToWiggle returns: the per-base coverage of the locus and the
      junction counts keyed by "donor:acceptor". */
  datatype Wiggle = Wiggle(track: seq<real>, jxns: map<string, int>)

  // ---------------------------------------------------------------------------
  // CIGAR text

  /** SAM CIGAR text: decimal lengths and operation letters only. */
  predicate IsCigarText(s: string)
  {
    forall i :: 0 <= i < |s| ==> IsDigit(s[i]) || s[i] in "MIDNSHP=X*"
  }

  /** s[:-1] */
  function DropLast(s: string): string
  {
    if |s| == 0 then s else s[..|s| - 1]
  }

  /** The CIGAR decoding of readsToWiggle: without an 'N' the length is int() of all but
      the last character; with one, the text must split on 'N' into exactly two
      halves, the first splitting on 'M' into exactly two integers, the second
      being an integer followed by one character. None is the exception case. */
  function DecodeCigar(cigar: string): Option<CigarShape>
  {
    if 'N' !in cigar then
      match ParseInt(DropLast(cigar))
      case Some(len) => Some(Unspliced(len))
      case None => None
    else
      var halves := Split(cigar, "N");
      if |halves| != 2 then None
      else
        var head := Split(halves[0], "M");
        if |head| != 2 then None
        else
          match (ParseInt(head[0]), ParseInt(head[1]), ParseInt(DropLast(halves[1])))
          case (Some(left), Some(gap), Some(right)) => Some(Spliced(left, gap, right))
          case _ => None
  }

  /** A CIGAR that is SAM CIGAR text never decodes to a negative length. */
  lemma DecodeCigarNonNegative(cigar: string)
    requires IsCigarText(cigar)
    ensures DecodeCigar(cigar).Some? ==>
      match DecodeCigar(cigar).value
      case Unspliced(len) => len >= 0
      case Spliced(left, gap, right) => left >= 0 && gap >= 0 && right >= 0
  {
    assert '-' !in cigar;
    assert '-' !in DropLast(cigar);
    if 'N' in cigar {
      var halves := Split(cigar, "N");
      SplitChars(cigar, "N");
      if |halves| == 2 {
        assert halves[0] in halves && halves[1] in halves;
        assert '-' !in halves[0] && '-' !in halves[1];
        assert '-' !in DropLast(halves[1]);
        SplitChars(halves[0], "M");
        var head := Split(halves[0], "M");
        if |head| == 2 {
          assert head[0] in head && head[1] in head;
        }
      }
    }
  }

  /** Decoding undoes writing an unspliced CIGAR "<len><op>" (op not 'N'). */
  lemma DecodeUnsplicedCigar(len: nat, op: char)
    requires op != 'N'
    ensures DecodeCigar(NatToString(len) + [op]) == Some(Unspliced(len))
  {
    var digits := NatToString(len);
    var cigar := digits + [op];
    NoLetterInDigits(digits, 'N');
    assert 'N' !in cigar by {
      forall i | 0 <= i < |cigar| ensures cigar[i] != 'N' {
        if i < |digits| { assert cigar[i] == digits[i]; }
      }
    }
    assert DropLast(cigar) == digits;
    ParseNatToString(len);
  }

  /** Decoding undoes writing a spliced CIGAR "<left>M<gap>N<right><op>" (op not 'N'). */
  lemma DecodeSplicedCigar(left: nat, gap: nat, right: nat, op: char)
    requires op != 'N'
    ensures DecodeCigar(NatToString(left) + "M" + NatToString(gap) + "N" + NatToString(right) + [op])
      == Some(Spliced(left, gap, right))
  {
    var l, g, r := NatToString(left), NatToString(gap), NatToString(right);
    NoLetterInDigits(l, 'M');
    NoLetterInDigits(g, 'M');
    NoLetterInDigits(l, 'N');
    NoLetterInDigits(g, 'N');
    NoLetterInDigits(r, 'N');
    var first := l + "M" + g;
    var last := r + [op];
    assert 'N' !in first by {
      forall i | 0 <= i < |first| ensures first[i] != 'N' {
        if i < |l| { assert first[i] == l[i]; }
        else if i > |l| { assert first[i] == g[i - |l| - 1]; }
      }
    }
    assert 'N' !in last by {
      forall i | 0 <= i < |last| ensures last[i] != 'N' {
        if i < |r| { assert last[i] == r[i]; }
      }
    }
    var cigar := first + "N" + last;
    assert cigar == l + "M" + g + "N" + r + [op];
    assert 'N' in cigar by { assert cigar[|first|] == 'N'; }
    SplitCons(first, "N", last);
    SplitWithoutSep(last, "N");
    assert Split(cigar, "N") == [first, last];
    SplitCons(l, "M", g);
    SplitWithoutSep(g, "M");
    assert Split(first, "M") == [l, g];
    assert DropLast(last) == r;
    ParseNatToString(left);
    ParseNatToString(gap);
    ParseNatToString(right);
  }

  /** Decimal digits contain no CIGAR operation letter. */
  lemma NoLetterInDigits(digits: string, letter: char)
    requires AllDigits(digits) && !IsDigit(letter)
    ensures letter !in digits
  {
    forall i | 0 <= i < |digits| ensures digits[i] != letter { assert IsDigit(digits[i]); }
  }

  // ---------------------------------------------------------------------------
  // Coverage arithmetic

  function Zeros(n: nat): (t: seq<real>)
    ensures |t| == n && forall k :: 0 <= k < n ==> t[k] == 0.0
  {
    seq(n, _ => 0.0)
  }

  /** track with v added at every offset k with lo <= k < hi (a clipped slice +=). */
  function AddOnRange(track: seq<real>, lo: int, hi: int, v: real): (r: seq<real>)
    ensures |r| == |track|
    ensures forall k :: 0 <= k < |track| ==> r[k] == if lo <= k < hi then track[k] + v else track[k]
  {
    seq(|track|, k requires 0 <= k < |track| => if lo <= k < hi then track[k] + v else track[k])
  }

  function Sum(t: seq<real>): real
    decreases |t|
  {
    if t == [] then 0.0 else Sum(t[..|t| - 1]) + t[|t| - 1]
  }

  /** Adding v on a range of w bases inside the track adds w * v to its total. */
  lemma {:induction false} SumAddOnRange(t: seq<real>, lo: int, hi: int, v: real)
    requires 0 <= lo <= hi <= |t|
    ensures Sum(AddOnRange(t, lo, hi, v)) == Sum(t) + (hi - lo) as real * v
    decreases |t|
  {
    if |t| > 0 {
      var m := |t| - 1;
      var lo', hi' := Min(lo, m), Min(hi, m);
      var extra := if lo <= m < hi then v else 0.0;
      calc {
        Sum(AddOnRange(t, lo, hi, v));
        == { AddOnRangePrefix(t, lo, hi, v); }
        Sum(AddOnRange(t[..m], lo', hi', v)) + t[m] + extra;
        == { SumAddOnRange(t[..m], lo', hi', v); }
        Sum(t[..m]) + t[m] + ((hi' - lo') as real * v + extra);
        == { ScaleStep(lo, hi, m, v); }
        Sum(t) + (hi - lo) as real * v;
      }
    } else {
      assert AddOnRange(t, lo, hi, v) == [];
    }
  }

  /** AddOnRange commutes with dropping the last element, the range clipped to match. */
  lemma AddOnRangePrefix(t: seq<real>, lo: int, hi: int, v: real)
    requires 0 <= lo <= hi <= |t| && |t| > 0
    ensures var m := |t| - 1;
      var r := AddOnRange(t, lo, hi, v);
      Sum(r) == Sum(AddOnRange(t[..m], Min(lo, m), Min(hi, m), v)) + t[m] + (if lo <= m < hi then v else 0.0)
  {
    var m := |t| - 1;
    var r := AddOnRange(t, lo, hi, v);
    assert r[..m] == AddOnRange(t[..m], Min(lo, m), Min(hi, m), v);
  }

  lemma ScaleStep(lo: int, hi: int, m: int, v: real)
    requires 0 <= lo <= hi <= m + 1
    ensures (Min(hi, m) - Min(lo, m)) as real * v + (if lo <= m < hi then v else 0.0) == (hi - lo) as real * v
  {
    var w := (m - lo) as real;
    if lo <= m < hi {
      assert Min(hi, m) - Min(lo, m) == m - lo && hi - lo == m - lo + 1;
      assert (w + 1.0) * v == w * v + v;
    } else if hi <= m {
      assert Min(hi, m) - Min(lo, m) == hi - lo;
    } else {
      assert Min(hi, m) - Min(lo, m) == 0 == hi - lo;
    }
  }

  predicate InLocus(x: int, n: int) { 0 <= x < n }

  /** The guard of readsToWiggle for one block of a spliced read: its start or its end
      offset lies in the locus. */
  predicate BlockCovered(s: int, e: int, n: int) { InLocus(e, n) || InLocus(s, n) }

  /** Python's normalisation of the bound x of a slice on a sequence of length n:
      a negative bound counts from the end, then the bound is clipped to [0, n]. */
  function PySliceBound(x: int, n: nat): nat
  {
    if x < 0 then Max(x + n, 0) else Min(x, n)
  }

  /** track[s : e] += v on a numpy array: both bounds normalised as Python does. */
  function SliceAdd(track: seq<real>, s: int, e: int, v: real): (r: seq<real>)
    ensures |r| == |track|
  {
    AddOnRange(track, PySliceBound(s, |track|), PySliceBound(e, |track|), v)
  }

  /** One block [s, e) of a spliced read of rlen aligned bases: when the guard lets it
      through, track[max(s, 0) : min(e, n)] += 1. / rlen; otherwise nothing changes. */
  function AddBlock(track: seq<real>, s: int, e: int, rlen: int): (r: seq<real>)
    requires BlockCovered(s, e, |track|) ==> rlen != 0
    ensures |r| == |track|
  {
    if BlockCovered(s, e, |track|) then SliceAdd(track, Max(s, 0), Min(e, |track|), 1.0 / (rlen as real)) else track
  }

  /** wiggle[s : e] += 1. / rlen for an unspliced read, as the source writes it:
      s = max(off, 0), e = min(off + rlen, len(wiggle) - 1), with Python's slice
      semantics, so that a negative e counts from the end of the locus. */
  function UnsplicedCoverageAsWritten(track: seq<real>, off: int, len: int): seq<real>
    requires len != 0
  {
    var n := |track|;
    SliceAdd(track, Max(off, 0), Min(off + len, n - 1), 1.0 / (len as real))
  }

  /** The same update with the end clipped instead of wrapped: a read that ends before
      the locus adds nothing. This is the definition the rest of the model uses. */
  function UnsplicedCoverage(track: seq<real>, off: int, len: int): seq<real>
    requires len != 0
  {
    AddOnRange(track, Max(off, 0), Min(off + len, |track| - 1), 1.0 / (len as real))
  }

  /** The two agree on every read that does not end before the locus start. */
  lemma UnsplicedAsWrittenAgreesWithoutWrap(track: seq<real>, off: int, len: int)
    requires len != 0 && off + len >= 0
    ensures UnsplicedCoverageAsWritten(track, off, len) == UnsplicedCoverage(track, off, len)
  {
    var n := |track|;
    var a := UnsplicedCoverageAsWritten(track, off, len);
    var b := UnsplicedCoverage(track, off, len);
    forall k | 0 <= k < n ensures a[k] == b[k] {
    }
  }

  /** A read "10M" at position 80 over the locus 100..149 lies wholly before it, yet
      the negative slice end min(-10, 49) = -10 wraps to 40: the written update covers
      offsets 0..39 of the locus, while the clipped update leaves it untouched. */
  lemma UnsplicedSliceWrapsAround()
    ensures UnsplicedCoverageAsWritten(Zeros(50), 80 - 100, 10)[0] == 0.1
    ensures UnsplicedCoverageAsWritten(Zeros(50), 80 - 100, 10)[39] == 0.1
    ensures UnsplicedCoverage(Zeros(50), 80 - 100, 10) == Zeros(50)
  {
    assert PySliceBound(Min(-10, 49), 50) == 40;
  }

  /** The clipped update touches only the bases the read covers, and only inside the
      locus short of its last base: a read that ends before the locus adds nothing. */
  lemma UnsplicedCoverageStaysOnRead(track: seq<real>, off: int, len: int)
    requires len != 0
    ensures var r := UnsplicedCoverage(track, off, len);
      |r| == |track| &&
      forall k :: 0 <= k < |track| ==>
        r[k] == if off <= k < off + len && k < |track| - 1 then track[k] + 1.0 / (len as real) else track[k]
    ensures off + len <= 0 ==> UnsplicedCoverage(track, off, len) == track
  {
    var r := UnsplicedCoverage(track, off, len);
    if off + len <= 0 {
      assert forall k :: 0 <= k < |track| ==> r[k] == track[k];
    }
  }

  /** For a block of a spliced read from SAM CIGAR text (start <= end) that passes the
      guard, both of its slice bounds are already inside [0, n]: Python's slice
      normalisation changes nothing, which is why ReadStep clips without wrapping. */
  lemma SplicedBlockSliceIsPlain(s: int, e: int, n: nat)
    requires s <= e && BlockCovered(s, e, n)
    ensures PySliceBound(Max(s, 0), n) == Max(s, 0) && PySliceBound(Min(e, n), n) == Min(e, n)
    ensures Max(s, 0) <= Min(e, n)
  {
  }

  // ---------------------------------------------------------------------------
  // Junction keys

  /** ":".join(map(str, [donor, acceptor])) */
  function JunctionKey(donor: int, acceptor: int): string
  {
    Join([IntToString(donor), IntToString(acceptor)], ":")
  }

  /** leftss, rightss = map(int, jxn.split(":")); None when that raises. */
  function ParseJunctionKey(key: string): Option<(int, int)>
  {
    var parts := Split(key, ":");
    if |parts| != 2 then None
    else
      match (ParseInt(parts[0]), ParseInt(parts[1]))
      case (Some(l), Some(r)) => Some((l, r))
      case _ => None
  }

  lemma NoColonInInt(n: int)
    ensures ':' !in IntToString(n)
  {
  }

  /** Parsing a junction key gives back the donor and acceptor it was built from. */
  lemma JunctionKeyRoundTrip(donor: int, acceptor: int)
    ensures ParseJunctionKey(JunctionKey(donor, acceptor)) == Some((donor, acceptor))
  {
    NoColonInInt(donor);
    NoColonInInt(acceptor);
    SplitJoin([IntToString(donor), IntToString(acceptor)], ":");
    ParseIntToString(donor);
    ParseIntToString(acceptor);
  }

  /** Distinct splice-site pairs never share a key. */
  lemma JunctionKeyInjective(d1: int, a1: int, d2: int, a2: int)
    requires JunctionKey(d1, a1) == JunctionKey(d2, a2)
    ensures d1 == d2 && a1 == a2
  {
    JunctionKeyRoundTrip(d1, a1);
    JunctionKeyRoundTrip(d2, a2);
  }

  /** jxns[jxn] += 1, or jxns[jxn] = 1 when the key is new. */
  function Bump(jxns: map<string, int>, key: string): map<string, int>
  {
    if key in jxns then jxns[key := jxns[key] + 1] else jxns[key := 1]
  }

  // ---------------------------------------------------------------------------
  // One read, and the whole of readsToWiggle

  /** The CIGAR of a decoded read never has a negative length. */
  predicate ShapeNonNegative(shape: Option<CigarShape>)
  {
    match shape
    case Some(Unspliced(len)) => len >= 0
    case Some(Spliced(left, gap, right)) => left >= 0 && gap >= 0 && right >= 0
    case None => true
  }

  /** The effect of read number `index`, at genomic position pos with the decoded CIGAR
      shape, on the coverage and junctions of a locus of |acc.track| bases starting
      at txStart (one iteration of the loop). */
  function ReadStep(acc: Wiggle, pos: int, shape: Option<CigarShape>, index: nat, txStart: int): (r: Result<Wiggle, WiggleError>)
    ensures r.Ok? ==> |r.value.track| == |acc.track|
    ensures r.Err? ==> r.error == MalformedCigar(index) || r.error == ZeroReadLength(index)
  {
    var n := |acc.track|;
    var off := pos - txStart;
    match shape
    case None => Err(MalformedCigar(index))
    case Some(Unspliced(len)) =>
      if len == 0 then Err(ZeroReadLength(index))
      else Ok(Wiggle(UnsplicedCoverage(acc.track, off, len), acc.jxns))
    case Some(Spliced(left, gap, right)) =>
      var rlen := left + right;
      var s1, e1 := off, off + left;
      var s2, e2 := off + left + gap, off + left + gap + right;
      var block1, block2 := BlockCovered(s1, e1, n), BlockCovered(s2, e2, n);
      if (block1 || block2) && rlen == 0 then Err(ZeroReadLength(index))
      else
        var t2 := AddBlock(AddBlock(acc.track, s1, e1, rlen), s2, e2, rlen);
        var donor, acceptor := pos + left, pos + left + gap + 1;
        var jxns := if InLocus(donor - txStart, n) && InLocus(acceptor - txStart, n)
                    then Bump(acc.jxns, JunctionKey(donor, acceptor)) else acc.jxns;
        Ok(Wiggle(t2, jxns))
  }

  /** readsToWiggle over the first |rs| reads of a locus of n bases: the left fold
      of ReadStep from zero coverage and no junctions; the first exception ends it. */
  function ExtractFrom(rs: seq<Read>, txStart: int, n: nat): (r: Result<Wiggle, WiggleError>)
    ensures r.Ok? ==> |r.value.track| == n
    decreases |rs|
  {
    if rs == [] then Ok(Wiggle(Zeros(n), map[]))
    else
      match ExtractFrom(rs[..|rs| - 1], txStart, n)
      case Err(e) => Err(e)
      case Ok(acc) => ReadStep(acc, rs[|rs| - 1].pos, DecodeCigar(rs[|rs| - 1].cigar), |rs| - 1, txStart)
  }

  /** readsToWiggle(reads, tx_start, tx_end) */
  function Extract(rs: seq<Read>, txStart: int, txEnd: int): Result<Wiggle, WiggleError>
  {
    var size := txEnd - txStart + 1;
    if size < 0 then Err(NegativeLocusLength) else ExtractFrom(rs, txStart, size)
  }

  /** One more read: the fold takes one more ReadStep. */
  lemma ExtractFromStep(rs: seq<Read>, i: nat, txStart: int, n: nat)
    requires i < |rs| && ExtractFrom(rs[..i], txStart, n).Ok?
    ensures ExtractFrom(rs[..i + 1], txStart, n) ==
      ReadStep(ExtractFrom(rs[..i], txStart, n).value, rs[i].pos, DecodeCigar(rs[i].cigar), i, txStart)
  {
    assert rs[..i + 1][..i] == rs[..i];
  }

  /** An exception on some read ends the whole call: every longer run fails with it. */
  lemma {:induction false} ExtractErrorAborts(rs: seq<Read>, txStart: int, n: nat, j: nat)
    requires j <= |rs| && ExtractFrom(rs[..j], txStart, n).Err?
    ensures ExtractFrom(rs, txStart, n) == ExtractFrom(rs[..j], txStart, n)
    decreases |rs| - j
  {
    if j < |rs| {
      assert rs[..j + 1][..j] == rs[..j];
      ExtractErrorAborts(rs, txStart, n, j + 1);
    } else {
      assert rs[..j] == rs;
    }
  }

  /** Whether ReadStep accepts a read in a locus of n bases: that depends on the read
      alone, not on what earlier reads added. */
  predicate ReadAccepted(pos: int, shape: Option<CigarShape>, txStart: int, n: nat)
  {
    match shape
    case None => false
    case Some(Unspliced(len)) => len != 0
    case Some(Spliced(left, gap, right)) =>
      var off := pos - txStart;
      var covered := BlockCovered(off, off + left, n) || BlockCovered(off + left + gap, off + left + gap + right, n);
      !(covered && left + right == 0)
  }

  predicate AllAccepted(rs: seq<Read>, txStart: int, n: nat)
  {
    forall i :: 0 <= i < |rs| ==> ReadAccepted(rs[i].pos, DecodeCigar(rs[i].cigar), txStart, n)
  }

  /** A run succeeds exactly when every read is accepted on its own. */
  lemma {:induction false} ExtractOkIffAccepted(rs: seq<Read>, txStart: int, n: nat)
    ensures ExtractFrom(rs, txStart, n).Ok? <==> AllAccepted(rs, txStart, n)
    decreases |rs|
  {
    if rs != [] {
      var prefix, last := rs[..|rs| - 1], rs[|rs| - 1];
      ExtractOkIffAccepted(prefix, txStart, n);
      AcceptedSnoc(rs, txStart, n);
      if ExtractFrom(prefix, txStart, n).Ok? {
        ReadStepAccepts(ExtractFrom(prefix, txStart, n).value, last.pos, DecodeCigar(last.cigar), |rs| - 1, txStart);
      }
    }
  }

  /** AllAccepted of a non-empty list: of all but the last read, and of the last. */
  lemma AcceptedSnoc(rs: seq<Read>, txStart: int, n: nat)
    requires rs != []
    ensures AllAccepted(rs, txStart, n) <==>
      AllAccepted(rs[..|rs| - 1], txStart, n) && ReadAccepted(rs[|rs| - 1].pos, DecodeCigar(rs[|rs| - 1].cigar), txStart, n)
  {
    assert forall i :: 0 <= i < |rs| - 1 ==> rs[..|rs| - 1][i] == rs[i];
  }

  /** ReadStep fails exactly on a read ReadAccepted rejects. */
  lemma ReadStepAccepts(acc: Wiggle, pos: int, shape: Option<CigarShape>, index: nat, txStart: int)
    ensures ReadStep(acc, pos, shape, index, txStart).Ok? <==> ReadAccepted(pos, shape, txStart, |acc.track|)
  {
  }

  // ---------------------------------------------------------------------------
  // Coverage, read by read

  /** What one read adds at offset k of a locus of n bases, stated on the genomic blocks
      of the read rather than on slices: 1/len on [off, off + len) for an unspliced
      read, but never on the last base; 1/(left + right) on each block of a spliced
      read whose guard holds. */
  function Contribution(pos: int, shape: Option<CigarShape>, txStart: int, n: nat, k: int): real
  {
    var off := pos - txStart;
    match shape
    case Some(Unspliced(len)) =>
      if len != 0 && off <= k < off + len && k < n - 1 then 1.0 / (len as real) else 0.0
    case Some(Spliced(left, gap, right)) =>
      if left + right == 0 then 0.0
      else
        var v := 1.0 / ((left + right) as real);
        var s2 := off + left + gap;
        (if BlockCovered(off, off + left, n) && off <= k < off + left then v else 0.0)
        + (if BlockCovered(s2, s2 + right, n) && s2 <= k < s2 + right then v else 0.0)
    case None => 0.0
  }

  /** One loop iteration adds exactly the read's contribution at every base. */
  lemma ReadStepCoverage(acc: Wiggle, pos: int, shape: Option<CigarShape>, index: nat, txStart: int)
    requires ShapeNonNegative(shape) && ReadStep(acc, pos, shape, index, txStart).Ok?
    ensures var w := ReadStep(acc, pos, shape, index, txStart).value;
      |w.track| == |acc.track| &&
      forall k :: 0 <= k < |acc.track| ==> w.track[k] == acc.track[k] + Contribution(pos, shape, txStart, |acc.track|, k)
  {
    match shape
    case Some(Spliced(left, gap, right)) =>
      SplicedStepCoverage(acc, pos, left, gap, right, index, txStart);
    case Some(Unspliced(len)) =>
      UnsplicedCoverageStaysOnRead(acc.track, pos - txStart, len);
    case None =>
  }

  /** ReadStepCoverage for a spliced read: each guarded block adds 1/(left + right) on
      its own bases. */
  lemma SplicedStepCoverage(acc: Wiggle, pos: int, left: int, gap: int, right: int, index: nat, txStart: int)
    requires left >= 0 && gap >= 0 && right >= 0
    requires ReadStep(acc, pos, Some(Spliced(left, gap, right)), index, txStart).Ok?
    ensures var w := ReadStep(acc, pos, Some(Spliced(left, gap, right)), index, txStart).value;
      forall k :: 0 <= k < |acc.track| ==>
        w.track[k] == acc.track[k] + Contribution(pos, Some(Spliced(left, gap, right)), txStart, |acc.track|, k)
  {
    var n := |acc.track|;
    var off := pos - txStart;
    var s1, e1 := off, off + left;
    var s2, e2 := off + left + gap, off + left + gap + right;
    var b1, b2 := BlockCovered(s1, e1, n), BlockCovered(s2, e2, n);
    var w := ReadStep(acc, pos, Some(Spliced(left, gap, right)), index, txStart).value;
    if b1 || b2 {
      var v := 1.0 / ((left + right) as real);
      var t1 := if b1 then AddOnRange(acc.track, Max(s1, 0), Min(e1, n), v) else acc.track;
      var t2 := if b2 then AddOnRange(t1, Max(s2, 0), Min(e2, n), v) else t1;
      if b1 { SplicedBlockSliceIsPlain(s1, e1, n); }
      if b2 { SplicedBlockSliceIsPlain(s2, e2, n); }
      assert w.track == t2;
      forall k | 0 <= k < n
        ensures w.track[k] == acc.track[k] + Contribution(pos, Some(Spliced(left, gap, right)), txStart, n, k)
      {
        assert t1[k] == acc.track[k] + (if b1 && s1 <= k < e1 then v else 0.0);
        assert t2[k] == t1[k] + (if b2 && s2 <= k < e2 then v else 0.0);
      }
    } else {
      assert w.track == acc.track;
    }
  }

  /** The coverage of all reads at offset k: the sum of their contributions. */
  function TotalContribution(rs: seq<Read>, txStart: int, n: nat, k: int): real
    decreases |rs|
  {
    if rs == [] then 0.0
    else
      var last := rs[|rs| - 1];
      TotalContribution(rs[..|rs| - 1], txStart, n, k) + Contribution(last.pos, DecodeCigar(last.cigar), txStart, n, k)
  }

  /** A successful run yields a track of n bases whose every entry is the sum of the
      reads' contributions there. */
  lemma {:induction false} ExtractCoverage(rs: seq<Read>, txStart: int, n: nat)
    requires forall i :: 0 <= i < |rs| ==> IsCigarText(rs[i].cigar)
    requires ExtractFrom(rs, txStart, n).Ok?
    ensures var w := ExtractFrom(rs, txStart, n).value;
      |w.track| == n && forall k :: 0 <= k < n ==> w.track[k] == TotalContribution(rs, txStart, n, k)
    decreases |rs|
  {
    if rs != [] {
      var prefix := rs[..|rs| - 1];
      var last := rs[|rs| - 1];
      var shape := DecodeCigar(last.cigar);
      assert forall i :: 0 <= i < |prefix| ==> prefix[i] == rs[i];
      ExtractCoverage(prefix, txStart, n);
      var acc := ExtractFrom(prefix, txStart, n).value;
      DecodeCigarNonNegative(last.cigar);
      ReadStepCoverage(acc, last.pos, shape, |rs| - 1, txStart);
    }
  }

  lemma ContributionNonNegative(pos: int, shape: Option<CigarShape>, txStart: int, n: nat, k: int)
    requires ShapeNonNegative(shape)
    ensures Contribution(pos, shape, txStart, n, k) >= 0.0
  {
  }

  lemma {:induction false} TotalContributionNonNegative(rs: seq<Read>, txStart: int, n: nat, k: int)
    requires forall i :: 0 <= i < |rs| ==> IsCigarText(rs[i].cigar)
    ensures TotalContribution(rs, txStart, n, k) >= 0.0
    decreases |rs|
  {
    if rs != [] {
      var last := rs[|rs| - 1];
      TotalContributionNonNegative(rs[..|rs| - 1], txStart, n, k);
      DecodeCigarNonNegative(last.cigar);
      ContributionNonNegative(last.pos, DecodeCigar(last.cigar), txStart, n, k);
    }
  }

  /** readsToWiggle returns an array of tx_end - tx_start + 1 entries, none negative. */
  lemma ExtractTrackShape(rs: seq<Read>, txStart: int, txEnd: int)
    requires forall i :: 0 <= i < |rs| ==> IsCigarText(rs[i].cigar)
    requires Extract(rs, txStart, txEnd).Ok?
    ensures var t := Extract(rs, txStart, txEnd).value.track;
      |t| == txEnd - txStart + 1 && forall k :: 0 <= k < |t| ==> t[k] >= 0.0
  {
    var n := txEnd - txStart + 1;
    ExtractCoverage(rs, txStart, n);
    forall k | 0 <= k < n ensures TotalContribution(rs, txStart, n, k) >= 0.0 {
      TotalContributionNonNegative(rs, txStart, n, k);
    }
  }

  /** An unspliced read lying wholly inside the locus, short of its last base, adds
      exactly 1 to the total coverage. */
  lemma InsideUnsplicedReadAddsOne(acc: Wiggle, pos: int, len: int, index: nat, txStart: int)
    requires len > 0
    requires 0 <= pos - txStart && pos - txStart + len <= |acc.track| - 1
    ensures ReadStep(acc, pos, Some(Unspliced(len)), index, txStart).Ok?
    ensures Sum(ReadStep(acc, pos, Some(Unspliced(len)), index, txStart).value.track) == Sum(acc.track) + 1.0
  {
    var off := pos - txStart;
    assert ReadStep(acc, pos, Some(Unspliced(len)), index, txStart).value.track
      == AddOnRange(acc.track, off, off + len, 1.0 / (len as real));
    SumAddOnRangeOfRead(acc.track, off, len);
  }

  /** Spreading 1/len over len bases adds 1 to the total. */
  lemma SumAddOnRangeOfRead(t: seq<real>, lo: int, len: int)
    requires len > 0 && 0 <= lo && lo + len <= |t|
    ensures Sum(AddOnRange(t, lo, lo + len, 1.0 / (len as real))) == Sum(t) + 1.0
  {
    var x := len as real;
    SumAddOnRange(t, lo, lo + len, 1.0 / x);
    assert (lo + len - lo) as real * (1.0 / x) == x * (1.0 / x) == 1.0;
  }

  /** A CIGAR without an 'N' never decodes to a spliced read. */
  lemma DecodeWithoutN(cigar: string)
    requires 'N' !in cigar
    ensures DecodeCigar(cigar).None? || DecodeCigar(cigar).value.Unspliced?
  {
  }

  /** An unspliced read never adds at the last base: its slice stops at len(wiggle) - 1. */
  lemma UnsplicedContributionMissesLastBase(pos: int, shape: Option<CigarShape>, txStart: int, n: nat)
    requires n > 0 && (shape.None? || shape.value.Unspliced?)
    ensures Contribution(pos, shape, txStart, n, n - 1) == 0.0
  {
  }

  lemma {:induction false} UnsplicedMissLastBase(rs: seq<Read>, txStart: int, n: nat)
    requires n > 0
    requires forall i :: 0 <= i < |rs| ==> 'N' !in rs[i].cigar
    ensures TotalContribution(rs, txStart, n, n - 1) == 0.0
    decreases |rs|
  {
    if rs != [] {
      var m := |rs| - 1;
      var last := rs[m];
      assert forall i :: 0 <= i < m ==> rs[..m][i] == rs[i];
      UnsplicedMissLastBase(rs[..m], txStart, n);
      DecodeWithoutN(last.cigar);
      UnsplicedContributionMissesLastBase(last.pos, DecodeCigar(last.cigar), txStart, n);
    }
  }

  /** When no read is spliced, the last base of the locus keeps coverage 0. */
  lemma LastBaseUntouchedByUnsplicedReads(rs: seq<Read>, txStart: int, txEnd: int)
    requires txEnd >= txStart
    requires forall i :: 0 <= i < |rs| ==> IsCigarText(rs[i].cigar) && 'N' !in rs[i].cigar
    requires Extract(rs, txStart, txEnd).Ok?
    ensures var t := Extract(rs, txStart, txEnd).value.track;
      |t| == txEnd - txStart + 1 && t[txEnd - txStart] == 0.0
  {
    var n := txEnd - txStart + 1;
    assert Extract(rs, txStart, txEnd) == ExtractFrom(rs, txStart, n);
    ExtractCoverage(rs, txStart, n);
    UnsplicedMissLastBase(rs, txStart, n);
  }

  // ---------------------------------------------------------------------------
  // Junction counts

  /** The junction (donor, acceptor) a read records in a locus of n bases starting at
      txStart: only a spliced read, and only when both splice sites lie in the locus,
      whatever its blocks contributed to coverage. */
  function JunctionOf(pos: int, shape: Option<CigarShape>, txStart: int, n: nat): Option<(int, int)>
  {
    match shape
    case Some(Spliced(left, gap, right)) =>
      var donor, acceptor := pos + left, pos + left + gap + 1;
      if InLocus(donor - txStart, n) && InLocus(acceptor - txStart, n) then Some((donor, acceptor)) else None
    case _ => None
  }

  /** How many of the reads record the junction (donor, acceptor). */
  function Support(rs: seq<Read>, txStart: int, n: nat, donor: int, acceptor: int): nat
    decreases |rs|
  {
    if rs == [] then 0
    else
      var last := rs[|rs| - 1];
      Support(rs[..|rs| - 1], txStart, n, donor, acceptor)
      + (if JunctionOf(last.pos, DecodeCigar(last.cigar), txStart, n) == Some((donor, acceptor)) then 1 else 0)
  }

  /** One loop iteration records a junction exactly when the read's splice sites both
      lie in the locus, whether or not its blocks touched the coverage. */
  lemma ReadStepJunctions(acc: Wiggle, pos: int, shape: Option<CigarShape>, index: nat, txStart: int)
    requires ReadStep(acc, pos, shape, index, txStart).Ok?
    ensures ReadStep(acc, pos, shape, index, txStart).value.jxns ==
      match JunctionOf(pos, shape, txStart, |acc.track|)
      case Some((donor, acceptor)) => Bump(acc.jxns, JunctionKey(donor, acceptor))
      case None => acc.jxns
  {
  }

  /** After a successful run, the count stored under the key of (donor, acceptor) is
      the number of reads recording that junction, and the key is present exactly
      when that number is positive. */
  lemma {:induction false} JunctionCounts(rs: seq<Read>, txStart: int, n: nat)
    requires ExtractFrom(rs, txStart, n).Ok?
    ensures var jxns := ExtractFrom(rs, txStart, n).value.jxns;
      forall donor, acceptor ::
        (JunctionKey(donor, acceptor) in jxns <==> Support(rs, txStart, n, donor, acceptor) > 0) &&
        (JunctionKey(donor, acceptor) in jxns ==> jxns[JunctionKey(donor, acceptor)] == Support(rs, txStart, n, donor, acceptor))
    decreases |rs|
  {
    if rs != [] {
      var prefix := rs[..|rs| - 1];
      var last := rs[|rs| - 1];
      var shape := DecodeCigar(last.cigar);
      JunctionCounts(prefix, txStart, n);
      var acc := ExtractFrom(prefix, txStart, n).value;
      var jxns := ExtractFrom(rs, txStart, n).value.jxns;
      ReadStepJunctions(acc, last.pos, shape, |rs| - 1, txStart);
      match JunctionOf(last.pos, shape, txStart, n)
      case None =>
      case Some((d0, a0)) =>
        forall donor, acceptor
          ensures (JunctionKey(donor, acceptor) in jxns <==> Support(rs, txStart, n, donor, acceptor) > 0)
          ensures JunctionKey(donor, acceptor) in jxns ==> jxns[JunctionKey(donor, acceptor)] == Support(rs, txStart, n, donor, acceptor)
        {
          if JunctionKey(donor, acceptor) == JunctionKey(d0, a0) {
            JunctionKeyInjective(donor, acceptor, d0, a0);
          }
        }
    }
  }

  /** Every key stored by a successful run is the key of the splice sites it parses to. */
  lemma {:induction false} JunctionKeysParse(rs: seq<Read>, txStart: int, n: nat)
    requires ExtractFrom(rs, txStart, n).Ok?
    ensures var jxns := ExtractFrom(rs, txStart, n).value.jxns;
      forall key :: key in jxns ==>
        ParseJunctionKey(key).Some? && key == JunctionKey(ParseJunctionKey(key).value.0, ParseJunctionKey(key).value.1)
    decreases |rs|
  {
    if rs != [] {
      var prefix := rs[..|rs| - 1];
      var last := rs[|rs| - 1];
      var shape := DecodeCigar(last.cigar);
      JunctionKeysParse(prefix, txStart, n);
      var acc := ExtractFrom(prefix, txStart, n).value;
      ReadStepJunctions(acc, last.pos, shape, |rs| - 1, txStart);
      match JunctionOf(last.pos, shape, txStart, n)
      case None =>
      case Some((d0, a0)) =>
        JunctionKeyRoundTrip(d0, a0);
    }
  }

  // ---------------------------------------------------------------------------
  // Independence from the order of the reads

  /** Taking read j out of the sum removes exactly its contribution. */
  lemma {:induction false} TotalContributionRemove(rs: seq<Read>, j: nat, txStart: int, n: nat, k: int)
    requires j < |rs|
    ensures TotalContribution(rs[..j] + rs[j + 1..], txStart, n, k)
      + Contribution(rs[j].pos, DecodeCigar(rs[j].cigar), txStart, n, k) == TotalContribution(rs, txStart, n, k)
    decreases |rs|
  {
    var m := |rs| - 1;
    var rest := rs[..j] + rs[j + 1..];
    if j == m {
      assert rest == rs[..m];
    } else {
      var init := rs[..m];
      TotalContributionRemove(init, j, txStart, n, k);
      DropOneSnoc(rs, j);
      TotalContributionSnoc(init[..j] + init[j + 1..], rs[m], txStart, n, k);
      TotalContributionSnoc(init, rs[m], txStart, n, k);
    }
  }

  /** Dropping element j before the last one commutes with splitting the last one off. */
  lemma DropOneSnoc<T>(rs: seq<T>, j: nat)
    requires j + 1 < |rs|
    ensures var init := rs[..|rs| - 1];
      rs[..j] + rs[j + 1..] == (init[..j] + init[j + 1..]) + [rs[|rs| - 1]] && rs == init + [rs[|rs| - 1]]
  {
  }

  /** The sum over rs + [r]: one more contribution. */
  lemma TotalContributionSnoc(rs: seq<Read>, r: Read, txStart: int, n: nat, k: int)
    ensures TotalContribution(rs + [r], txStart, n, k)
      == TotalContribution(rs, txStart, n, k) + Contribution(r.pos, DecodeCigar(r.cigar), txStart, n, k)
  {
    assert (rs + [r])[..|rs|] == rs;
  }

  /** The count over rs + [r]: one more vote. */
  lemma SupportSnoc(rs: seq<Read>, r: Read, txStart: int, n: nat, donor: int, acceptor: int)
    ensures Support(rs + [r], txStart, n, donor, acceptor) == Support(rs, txStart, n, donor, acceptor)
      + (if JunctionOf(r.pos, DecodeCigar(r.cigar), txStart, n) == Some((donor, acceptor)) then 1 else 0)
  {
    assert (rs + [r])[..|rs|] == rs;
  }

  /** Reordering the reads leaves every coverage sum as it is. */
  lemma {:induction false} TotalContributionPermutation(rs: seq<Read>, rs': seq<Read>, txStart: int, n: nat, k: int)
    requires multiset(rs) == multiset(rs')
    ensures TotalContribution(rs, txStart, n, k) == TotalContribution(rs', txStart, n, k)
    decreases |rs|
  {
    if rs == [] {
      assert |multiset(rs')| == 0;
    } else {
      var m := |rs| - 1;
      var j := PickSame(rs, rs');
      var rest' := rs'[..j] + rs'[j + 1..];
      assert rs[..m] + [rs[m]] == rs;
      assert rs'[..j] + [rs'[j]] + rs'[j + 1..] == rs';
      TotalContributionPermutation(rs[..m], rest', txStart, n, k);
      TotalContributionRemove(rs', j, txStart, n, k);
    }
  }

  /** Taking read j out of the count removes exactly its vote for (donor, acceptor). */
  lemma {:induction false} SupportRemove(rs: seq<Read>, j: nat, txStart: int, n: nat, donor: int, acceptor: int)
    requires j < |rs|
    ensures Support(rs[..j] + rs[j + 1..], txStart, n, donor, acceptor)
      + (if JunctionOf(rs[j].pos, DecodeCigar(rs[j].cigar), txStart, n) == Some((donor, acceptor)) then 1 else 0)
      == Support(rs, txStart, n, donor, acceptor)
    decreases |rs|
  {
    var m := |rs| - 1;
    var rest := rs[..j] + rs[j + 1..];
    if j == m {
      assert rest == rs[..m];
    } else {
      var init := rs[..m];
      SupportRemove(init, j, txStart, n, donor, acceptor);
      DropOneSnoc(rs, j);
      SupportSnoc(init[..j] + init[j + 1..], rs[m], txStart, n, donor, acceptor);
      SupportSnoc(init, rs[m], txStart, n, donor, acceptor);
    }
  }

  /** Reordering the reads leaves every junction count as it is. */
  lemma {:induction false} SupportPermutation(rs: seq<Read>, rs': seq<Read>, txStart: int, n: nat, donor: int, acceptor: int)
    requires multiset(rs) == multiset(rs')
    ensures Support(rs, txStart, n, donor, acceptor) == Support(rs', txStart, n, donor, acceptor)
    decreases |rs|
  {
    if rs == [] {
      assert |multiset(rs')| == 0;
    } else {
      var m := |rs| - 1;
      var j := PickSame(rs, rs');
      var rest' := rs'[..j] + rs'[j + 1..];
      assert rs[..m] + [rs[m]] == rs;
      assert rs'[..j] + [rs'[j]] + rs'[j + 1..] == rs';
      SupportPermutation(rs[..m], rest', txStart, n, donor, acceptor);
      SupportRemove(rs', j, txStart, n, donor, acceptor);
    }
  }

  /** The last read of rs sits at some index j of its permutation rs'; removing it from
      both sides leaves two permutations of each other. */
  lemma PickSame(rs: seq<Read>, rs': seq<Read>) returns (j: nat)
    requires rs != [] && multiset(rs) == multiset(rs')
    ensures j < |rs'| && rs'[j] == rs[|rs| - 1]
    ensures multiset(rs[..|rs| - 1]) == multiset(rs'[..j] + rs'[j + 1..])
  {
    var m := |rs| - 1;
    assert rs[m] in multiset(rs');
    j :| 0 <= j < |rs'| && rs'[j] == rs[m];
    assert rs[..m] + [rs[m]] == rs;
    assert multiset(rs) == multiset(rs[..m]) + multiset{rs[m]};
    assert rs'[..j] + [rs'[j]] + rs'[j + 1..] == rs';
    assert multiset(rs') == multiset(rs'[..j]) + multiset{rs[m]} + multiset(rs'[j + 1..]);
    calc {
      multiset(rs[..m]);
      multiset(rs) - multiset{rs[m]};
      multiset(rs') - multiset{rs[m]};
      multiset(rs'[..j]) + multiset(rs'[j + 1..]);
      multiset(rs'[..j] + rs'[j + 1..]);
    }
  }

  /** readsToWiggle does not depend on the order of the reads: a reordering of reads
      whose run succeeds also succeeds, with the same coverage and the same junction
      counts. */
  lemma ExtractPermutation(rs: seq<Read>, rs': seq<Read>, txStart: int, n: nat)
    requires multiset(rs) == multiset(rs')
    requires forall i :: 0 <= i < |rs| ==> IsCigarText(rs[i].cigar)
    requires ExtractFrom(rs, txStart, n).Ok?
    ensures ExtractFrom(rs', txStart, n) == ExtractFrom(rs, txStart, n)
  {
    forall i | 0 <= i < |rs'|
      ensures IsCigarText(rs'[i].cigar) && ReadAccepted(rs'[i].pos, DecodeCigar(rs'[i].cigar), txStart, n)
    {
      assert rs'[i] in multiset(rs);
      var j :| 0 <= j < |rs| && rs[j] == rs'[i];
      ExtractOkIffAccepted(rs, txStart, n);
    }
    ExtractOkIffAccepted(rs', txStart, n);
    SameTracks(rs, rs', txStart, n);
    SameJunctions(rs, rs', txStart, n);
  }

  /** The coverage half of ExtractPermutation. */
  lemma SameTracks(rs: seq<Read>, rs': seq<Read>, txStart: int, n: nat)
    requires multiset(rs) == multiset(rs')
    requires forall i :: 0 <= i < |rs| ==> IsCigarText(rs[i].cigar)
    requires forall i :: 0 <= i < |rs'| ==> IsCigarText(rs'[i].cigar)
    requires ExtractFrom(rs, txStart, n).Ok? && ExtractFrom(rs', txStart, n).Ok?
    ensures ExtractFrom(rs', txStart, n).value.track == ExtractFrom(rs, txStart, n).value.track
  {
    ExtractCoverage(rs, txStart, n);
    ExtractCoverage(rs', txStart, n);
    forall k | 0 <= k < n
      ensures TotalContribution(rs, txStart, n, k) == TotalContribution(rs', txStart, n, k)
    {
      TotalContributionPermutation(rs, rs', txStart, n, k);
    }
  }

  /** The junction half of ExtractPermutation. */
  lemma SameJunctions(rs: seq<Read>, rs': seq<Read>, txStart: int, n: nat)
    requires multiset(rs) == multiset(rs')
    requires ExtractFrom(rs, txStart, n).Ok? && ExtractFrom(rs', txStart, n).Ok?
    ensures ExtractFrom(rs', txStart, n).value.jxns == ExtractFrom(rs, txStart, n).value.jxns
  {
    var jx, jx' := ExtractFrom(rs, txStart, n).value.jxns, ExtractFrom(rs', txStart, n).value.jxns;
    forall key | key in jx || key in jx'
      ensures key in jx && key in jx' && jx[key] == jx'[key]
    {
      SameJunctionAt(rs, rs', txStart, n, key);
    }
  }

  lemma SameJunctionAt(rs: seq<Read>, rs': seq<Read>, txStart: int, n: nat, key: string)
    requires multiset(rs) == multiset(rs')
    requires ExtractFrom(rs, txStart, n).Ok? && ExtractFrom(rs', txStart, n).Ok?
    requires key in ExtractFrom(rs, txStart, n).value.jxns || key in ExtractFrom(rs', txStart, n).value.jxns
    ensures var jx, jx' := ExtractFrom(rs, txStart, n).value.jxns, ExtractFrom(rs', txStart, n).value.jxns;
      key in jx && key in jx' && jx[key] == jx'[key]
  {
    JunctionKeysParse(rs, txStart, n);
    JunctionKeysParse(rs', txStart, n);
    var p := ParseJunctionKey(key).value;
    assert key == JunctionKey(p.0, p.1);
    JunctionCounts(rs, txStart, n);
    JunctionCounts(rs', txStart, n);
    SupportPermutation(rs, rs', txStart, n, p.0, p.1);
  }

  /** Every stored count is at least 1: keys are created at 1 and only incremented. */
  lemma JunctionCountsPositive(rs: seq<Read>, txStart: int, n: nat)
    requires ExtractFrom(rs, txStart, n).Ok?
    ensures var jxns := ExtractFrom(rs, txStart, n).value.jxns;
      forall key :: key in jxns ==> jxns[key] >= 1
  {
    JunctionCounts(rs, txStart, n);
    JunctionKeysParse(rs, txStart, n);
    var jxns := ExtractFrom(rs, txStart, n).value.jxns;
    forall key | key in jxns ensures jxns[key] >= 1 {
      var p := ParseJunctionKey(key).value;
      assert key == JunctionKey(p.0, p.1);
    }
  }

  // ---------------------------------------------------------------------------
  // The imperative readsToWiggle

  /** wiggle[lo : hi] += v, with the slice clipped to the array. */
  method AddToSlice(wiggle: array<real>, lo: int, hi: int, v: real)
    modifies wiggle
    ensures wiggle[..] == AddOnRange(old(wiggle[..]), lo, hi, v)
  {
    var start := Max(lo, 0);
    var stop := Min(hi, wiggle.Length);
    var k := start;
    while k < stop
      invariant start <= k <= Max(start, stop)
      invariant forall j :: 0 <= j < wiggle.Length ==>
        wiggle[j] == if start <= j < k then old(wiggle[j]) + v else old(wiggle[j])
    {
      wiggle[k] := wiggle[k] + v;
      k := k + 1;
    }
  }

  /** The body of the loop of readsToWiggle for read number `index`, whose CIGAR has
      been decoded to shape. */
  method AddRead(wiggle: array<real>, jxns: map<string, int>, pos: int, shape: Option<CigarShape>, index: nat, txStart: int)
    returns (jxns': map<string, int>, error: Option<WiggleError>)
    modifies wiggle
    ensures ReadStep(Wiggle(old(wiggle[..]), jxns), pos, shape, index, txStart) ==
      if error.Some? then Err(error.value) else Ok(Wiggle(wiggle[..], jxns'))
  {
    jxns', error := jxns, None;
    var n := wiggle.Length;
    var off := pos - txStart;
    match shape
    case None =>
      error := Some(MalformedCigar(index));
    case Some(Unspliced(len)) =>
      if len == 0 {
        error := Some(ZeroReadLength(index));
        return;
      }
      AddToSlice(wiggle, Max(off, 0), Min(off + len, n - 1), 1.0 / (len as real));
    case Some(Spliced(left, gap, right)) =>
      jxns', error := AddSplicedRead(wiggle, jxns, pos, left, gap, right, index, txStart);
  }

  /** AddRead for a read whose CIGAR decoded to "<left>M<gap>N<right>M": each block whose
      guard holds gets 1/(left + right) over its clipped slice, and the junction is
      counted when both splice sites lie in the locus. */
  method AddSplicedRead(wiggle: array<real>, jxns: map<string, int>, pos: int, left: int, gap: int, right: int, index: nat, txStart: int)
    returns (jxns': map<string, int>, error: Option<WiggleError>)
    modifies wiggle
    ensures ReadStep(Wiggle(old(wiggle[..]), jxns), pos, Some(Spliced(left, gap, right)), index, txStart) ==
      if error.Some? then Err(error.value) else Ok(Wiggle(wiggle[..], jxns'))
  {
    jxns', error := jxns, None;
    var n := wiggle.Length;
    var off := pos - txStart;
    var rlen := left + right;
    var s1, e1 := off, off + left;
    var s2, e2 := off + left + gap, off + left + gap + right;
    if (BlockCovered(s1, e1, n) || BlockCovered(s2, e2, n)) && rlen == 0 {
      error := Some(ZeroReadLength(index));
      assert ReadStep(Wiggle(wiggle[..], jxns), pos, Some(Spliced(left, gap, right)), index, txStart) == Err(ZeroReadLength(index));
      return;
    }
    ghost var t0 := wiggle[..];
    AddBlockInPlace(wiggle, s1, e1, rlen);
    AddBlockInPlace(wiggle, s2, e2, rlen);
    var donor, acceptor := pos + left, pos + left + gap + 1;
    if InLocus(donor - txStart, n) && InLocus(acceptor - txStart, n) {
      var key := JunctionKey(donor, acceptor);
      if key in jxns' {
        jxns' := jxns'[key := jxns'[key] + 1];
      } else {
        jxns' := jxns'[key := 1];
      }
    }
    assert jxns' == if InLocus(donor - txStart, n) && InLocus(acceptor - txStart, n)
                    then Bump(jxns, JunctionKey(donor, acceptor)) else jxns;
    SplicedStepOk(Wiggle(t0, jxns), pos, left, gap, right, index, txStart);
  }

  /** ReadStep on a spliced read that passes the zero-length check: the two guarded
      blocks are added in turn and the junction is counted when both splice sites lie
      in the locus. */
  lemma SplicedStepOk(acc: Wiggle, pos: int, left: int, gap: int, right: int, index: nat, txStart: int)
    requires var n, off := |acc.track|, pos - txStart;
      !((BlockCovered(off, off + left, n) || BlockCovered(off + left + gap, off + left + gap + right, n)) && left + right == 0)
    ensures var n, off := |acc.track|, pos - txStart;
      var t1 := AddBlock(acc.track, off, off + left, left + right);
      ReadStep(acc, pos, Some(Spliced(left, gap, right)), index, txStart) ==
        Ok(Wiggle(AddBlock(t1, off + left + gap, off + left + gap + right, left + right),
                  if InLocus(pos + left - txStart, n) && InLocus(pos + left + gap + 1 - txStart, n)
                  then Bump(acc.jxns, JunctionKey(pos + left, pos + left + gap + 1)) else acc.jxns))
  {
  }

  /** One block of a spliced read added to the array in place, as AddBlock adds it. */
  method AddBlockInPlace(wiggle: array<real>, s: int, e: int, rlen: int)
    requires BlockCovered(s, e, wiggle.Length) ==> rlen != 0
    modifies wiggle
    ensures wiggle[..] == AddBlock(old(wiggle[..]), s, e, rlen)
  {
    var n := wiggle.Length;
    if BlockCovered(s, e, n) {
      AddToSlice(wiggle, PySliceBound(Max(s, 0), n), PySliceBound(Min(e, n), n), 1.0 / (rlen as real));
    }
  }

  /** readsToWiggle: fills a fresh coverage array and a junction map read by read; the
      result is Extract's, and an exception on any read is reported instead. */
  method ReadsToWiggle(rs: seq<Read>, txStart: int, txEnd: int)
    returns (wiggle: array<real>, jxns: map<string, int>, error: Option<WiggleError>)
    ensures fresh(wiggle)
    ensures Extract(rs, txStart, txEnd) ==
      if error.Some? then Err(error.value) else Ok(Wiggle(wiggle[..], jxns))
  {
    jxns, error := map[], None;
    var size := txEnd - txStart + 1;
    if size < 0 {
      wiggle := new real[0];
      error := Some(NegativeLocusLength);
      return;
    }
    wiggle := new real[size](_ => 0.0);
    assert wiggle[..] == Zeros(size);
    var i := 0;
    while i < |rs|
      invariant 0 <= i <= |rs|
      invariant wiggle.Length == size && error.None?
      invariant ExtractFrom(rs[..i], txStart, size) == Ok(Wiggle(wiggle[..], jxns))
    {
      ExtractFromStep(rs, i, txStart, size);
      var shape := DecodeCigar(rs[i].cigar);
      jxns, error := AddRead(wiggle, jxns, rs[i].pos, shape, i, txStart);
      if error.Some? {
        assert ExtractFrom(rs[..i + 1], txStart, size) == Err(error.value);
        ExtractErrorAborts(rs, txStart, size, i + 1);
        assert Extract(rs, txStart, txEnd) == ExtractFrom(rs, txStart, size);
        return;
      }
      i := i + 1;
    }
    assert rs[..i] == rs;
    assert Extract(rs, txStart, txEnd) == ExtractFrom(rs, txStart, size);
  }

  // ---------------------------------------------------------------------------
  // Transcripts containing both splice sites of a junction

  /** One transcript's exons flattened to [start0, end0, start1, end1, ...]. */
  function SpliceSites(exons: seq<(int, int)>): seq<int>
    decreases |exons|
  {
    if exons == [] then []
    else SpliceSites(exons[..|exons| - 1]) + [exons[|exons| - 1].0, exons[|exons| - 1].1]
  }

  /** A position is in the flattened list exactly when some exon starts or ends there. */
  lemma {:induction false} SpliceSitesMembership(exons: seq<(int, int)>, x: int)
    ensures x in SpliceSites(exons) <==> exists j :: 0 <= j < |exons| && (exons[j].0 == x || exons[j].1 == x)
    decreases |exons|
  {
    if exons != [] {
      var m := |exons| - 1;
      SpliceSitesMembership(exons[..m], x);
      if exists j :: 0 <= j < |exons| && (exons[j].0 == x || exons[j].1 == x) {
        var j :| 0 <= j < |exons| && (exons[j].0 == x || exons[j].1 == x);
        if j < m {
          assert exons[..m][j] == exons[j];
        }
      }
      if x in SpliceSites(exons[..m]) {
        var j :| 0 <= j < m && (exons[..m][j].0 == x || exons[..m][j].1 == x);
        assert exons[j] == exons[..m][j];
      }
    }
  }

  /** sslists: the flattened splice-site list of every transcript, in order. */
  method SpliceSiteLists(mRNAs: seq<seq<(int, int)>>) returns (sslists: seq<seq<int>>)
    ensures |sslists| == |mRNAs|
    ensures forall i :: 0 <= i < |mRNAs| ==> sslists[i] == SpliceSites(mRNAs[i])
  {
    sslists := [];
    for i := 0 to |mRNAs|
      invariant |sslists| == i
      invariant forall j :: 0 <= j < i ==> sslists[j] == SpliceSites(mRNAs[j])
    {
      var mRNA := mRNAs[i];
      var tmp := [];
      for j := 0 to |mRNA|
        invariant tmp == SpliceSites(mRNA[..j])
      {
        assert mRNA[..j + 1][..j] == mRNA[..j];
        tmp := tmp + [mRNA[j].0, mRNA[j].1];
      }
      assert mRNA[..|mRNA|] == mRNA;
      sslists := sslists + [tmp];
    }
  }

  /** How many of the lists contain both splice sites. */
  function IsoformsWithBoth(sslists: seq<seq<int>>, leftss: int, rightss: int): nat
    decreases |sslists|
  {
    if sslists == [] then 0
    else IsoformsWithBoth(sslists[..|sslists| - 1], leftss, rightss)
         + (if leftss in sslists[|sslists| - 1] && rightss in sslists[|sslists| - 1] then 1 else 0)
  }

  /** The count is the number of lists when every list has both sites, and 0 when none
      has both; in between otherwise. */
  lemma {:induction false} IsoformsWithBothExtremes(sslists: seq<seq<int>>, leftss: int, rightss: int)
    ensures IsoformsWithBoth(sslists, leftss, rightss) <= |sslists|
    ensures IsoformsWithBoth(sslists, leftss, rightss) == |sslists| <==>
      forall i :: 0 <= i < |sslists| ==> leftss in sslists[i] && rightss in sslists[i]
    ensures IsoformsWithBoth(sslists, leftss, rightss) == 0 <==>
      forall i :: 0 <= i < |sslists| ==> !(leftss in sslists[i] && rightss in sslists[i])
    decreases |sslists|
  {
    if sslists != [] {
      var m := |sslists| - 1;
      var prefix := sslists[..m];
      IsoformsWithBothExtremes(prefix, leftss, rightss);
      assert forall i :: 0 <= i < m ==> prefix[i] == sslists[i];
    }
  }

  /** numisoforms for the junction (leftss, rightss). */
  method NumIsoforms(sslists: seq<seq<int>>, leftss: int, rightss: int) returns (numisoforms: nat)
    ensures numisoforms == IsoformsWithBoth(sslists, leftss, rightss)
    ensures numisoforms <= |sslists|
  {
    numisoforms := 0;
    for i := 0 to |sslists|
      invariant numisoforms == IsoformsWithBoth(sslists[..i], leftss, rightss)
    {
      assert sslists[..i + 1][..i] == sslists[..i];
      if leftss in sslists[i] && rightss in sslists[i] {
        numisoforms := numisoforms + 1;
      }
    }
    assert sslists[..|sslists|] == sslists;
    IsoformsWithBothExtremes(sslists, leftss, rightss);
  }
}
