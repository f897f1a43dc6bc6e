/**
 * A model of the two plotting helpers of rampedpyrox's core package:
 *  - PlotDicts, the case-dispatched table of axis labels or data series used to
 *    plot time- and temperature-resolved fraction and rate curves;
 *  - RemDupLeg, the removal of duplicate legend entries from a plot axis.
 */
module PlottingHelper {

  /* ======================================================================
   * Plotting dictionaries (_plot_dicts)
   * ====================================================================== */

  /** The series of a TimeData instance that the plotting tables read. They are
      computed elsewhere in the library and are taken here as given values. */
  datatype TimeData = TimeData(
    t: seq<real>,        // time, in seconds
    T: seq<real>,        // temperature, in Kelvin
    g: seq<real>,        // measured fraction remaining
    dgdt: seq<real>,     // its time derivative
    dgdT: seq<real>,     // its temperature derivative
    ghat: seq<real>,     // modelled fraction remaining
    dghatdt: seq<real>,  // its time derivative
    dghatdT: seq<real>   // its temperature derivative
  )

  /** One leaf of the nested dictionary: a pair of axis labels, or a pair of
      (independent, dependent) data series. */
  datatype Pair =
    | LabelPair(xLabel: string, yLabel: string)
    | SeriesPair(xs: seq<real>, ys: seq<real>)

  /** The inner dictionary, keyed by 'fraction' and 'rate'. */
  datatype ByRepresentation = ByRepresentation(fraction: Pair, rate: Pair)

  /** The outer dictionary, keyed by 'time' and 'temp'. */
  datatype PlotDict = PlotDict(time: ByRepresentation, temp: ByRepresentation)

  /** The outcome of _plot_dicts: the dictionary, or the UnboundLocalError that
      `return pl_dict` raises when no branch assigned it. */
  datatype PlotResult = Ok(dict: PlotDict) | UnboundLocalError

  datatype Option<T> = None | Some(value: T)

  const RPO_LABS: string := "rpo_labs"
  const RPO_MD: string := "rpo_md"
  const RPO_RD: string := "rpo_rd"

  /** The caller's two-level access pl_dict[dom][rep]; a key other than 'time'
      or 'temp', then 'fraction' or 'rate', is a KeyError (None). */
  function Lookup(d: PlotDict, dom: string, rep: string): (r: Option<Pair>)
    ensures r.Some? <==> (dom == "time" || dom == "temp") && (rep == "fraction" || rep == "rate")
    ensures dom == "time" && rep == "fraction" ==> r == Some(d.time.fraction)
    ensures dom == "time" && rep == "rate" ==> r == Some(d.time.rate)
    ensures dom == "temp" && rep == "fraction" ==> r == Some(d.temp.fraction)
    ensures dom == "temp" && rep == "rate" ==> r == Some(d.temp.rate)
  {
    var inner :=
      if dom == "time" then Some(d.time)
      else if dom == "temp" then Some(d.temp)
      else None;
    if inner.None? then None
    else if rep == "fraction" then Some(inner.value.fraction)
    else if rep == "rate" then Some(inner.value.rate)
    else None
  }

  /** The four keyed entries are the whole dictionary: two dictionaries that
      agree at every key are equal. */
  lemma LookupExtensional(d1: PlotDict, d2: PlotDict)
    requires forall dom, rep :: Lookup(d1, dom, rep) == Lookup(d2, dom, rep)
    ensures d1 == d2
  {
    assert Lookup(d1, "time", "fraction") == Lookup(d2, "time", "fraction");
    assert Lookup(d1, "time", "rate") == Lookup(d2, "time", "rate");
    assert Lookup(d1, "temp", "fraction") == Lookup(d2, "temp", "fraction");
    assert Lookup(d1, "temp", "rate") == Lookup(d2, "temp", "rate");
  }

  /** numpy's unary minus on a one-dimensional array. */
  function Neg(s: seq<real>): (r: seq<real>)
    ensures IsNegationOf(r, s)
  {
    if s == [] then [] else [-s[0]] + Neg(s[1..])
  }

  /** r is s negated element by element, with the same length. */
  predicate IsNegationOf(r: seq<real>, s: seq<real>)
  {
    |r| == |s| && forall i :: 0 <= i < |s| ==> r[i] == -s[i]
  }

  /** The dictionary a data case builds from an x pair (t, T), a fraction series
      and its two derivatives. */
  function SeriesDict(t: seq<real>, T: seq<real>, frac: seq<real>, dfdt: seq<real>, dfdT: seq<real>): (r: PlotDict)
    ensures r.time.fraction.SeriesPair? && r.time.rate.SeriesPair?
    ensures r.temp.fraction.SeriesPair? && r.temp.rate.SeriesPair?
    ensures r.time.fraction.xs == r.time.rate.xs == t
    ensures r.temp.fraction.xs == r.temp.rate.xs == T
    ensures r.time.fraction.ys == r.temp.fraction.ys == frac
    ensures IsNegationOf(r.time.rate.ys, dfdt) && IsNegationOf(r.temp.rate.ys, dfdT)
  {
    PlotDict(
      ByRepresentation(SeriesPair(t, frac), SeriesPair(t, Neg(dfdt))),
      ByRepresentation(SeriesPair(T, frac), SeriesPair(T, Neg(dfdT))))
  }

  /** _plot_dicts(case, td). Only the three tokens assign pl_dict; any other
      token reaches the return with pl_dict unbound. */
  function PlotDicts(token: string, td: TimeData): (r: PlotResult)
    ensures r.Ok? <==> token == RPO_LABS || token == RPO_MD || token == RPO_RD
    ensures r.Ok? && token != RPO_LABS ==>
      forall dom, rep :: Lookup(r.dict, dom, rep).Some? ==> Lookup(r.dict, dom, rep).value.SeriesPair?
    ensures token == RPO_LABS ==>
      forall dom, rep :: Lookup(r.dict, dom, rep).Some? ==> Lookup(r.dict, dom, rep).value.LabelPair?
  {
    if token == RPO_LABS then
      Ok(PlotDict(
        ByRepresentation(LabelPair("time (s)", "g (unitless)"),
                         LabelPair("time (s)", "fraction/time $(s^{-1})$")),
        ByRepresentation(LabelPair("temp (K)", "g (unitless)"),
                         LabelPair("temp (K)", "fraction/temp $(K^{-1})$"))))
    else if token == RPO_MD then
      Ok(SeriesDict(td.t, td.T, td.ghat, td.dghatdt, td.dghatdT))
    else if token == RPO_RD then
      Ok(SeriesDict(td.t, td.T, td.g, td.dgdt, td.dgdT))
    else
      UnboundLocalError
  }

  /** The label case yields the four literal label pairs, whatever the data. */
  lemma LabelCaseTable(td: TimeData, other: TimeData)
    ensures PlotDicts(RPO_LABS, td).Ok?
    ensures PlotDicts(RPO_LABS, td) == PlotDicts(RPO_LABS, other)
    ensures var d := PlotDicts(RPO_LABS, td).dict;
      && d.time.fraction == LabelPair("time (s)", "g (unitless)")
      && d.time.rate == LabelPair("time (s)", "fraction/time $(s^{-1})$")
      && d.temp.fraction == LabelPair("temp (K)", "g (unitless)")
      && d.temp.rate == LabelPair("temp (K)", "fraction/temp $(K^{-1})$")
  {
  }

  /** The modelled-data case: x is t for time and T for temp, the fraction is
      ghat unchanged, and the rates are the elementwise negated derivatives. */
  lemma ModeledCaseSeries(td: TimeData)
    ensures PlotDicts(RPO_MD, td).Ok?
    ensures var d := PlotDicts(RPO_MD, td).dict;
      && d.time.fraction == SeriesPair(td.t, td.ghat)
      && d.temp.fraction == SeriesPair(td.T, td.ghat)
      && d.time.rate.SeriesPair? && d.time.rate.xs == td.t
      && d.temp.rate.SeriesPair? && d.temp.rate.xs == td.T
      && IsNegationOf(d.time.rate.ys, td.dghatdt)
      && IsNegationOf(d.temp.rate.ys, td.dghatdT)
  {
  }

  /** The real-data case: the same shape, built from g and its derivatives. */
  lemma RealCaseSeries(td: TimeData)
    ensures PlotDicts(RPO_RD, td).Ok?
    ensures var d := PlotDicts(RPO_RD, td).dict;
      && d.time.fraction == SeriesPair(td.t, td.g)
      && d.temp.fraction == SeriesPair(td.T, td.g)
      && d.time.rate.SeriesPair? && d.time.rate.xs == td.t
      && d.temp.rate.SeriesPair? && d.temp.rate.xs == td.T
      && IsNegationOf(d.time.rate.ys, td.dgdt)
      && IsNegationOf(d.temp.rate.ys, td.dgdT)
  {
  }

  /** The real-data case is the modelled-data case applied to the measured
      series in place of the modelled ones. */
  lemma RealCaseIsModeledCaseOfMeasured(td: TimeData)
    ensures PlotDicts(RPO_RD, td)
         == PlotDicts(RPO_MD, td.(ghat := td.g, dghatdt := td.dgdt, dghatdT := td.dgdT))
  {
  }

  lemma {:induction false} NegInvolutive(s: seq<real>)
    ensures Neg(Neg(s)) == s
  {
    if s != [] {
      NegInvolutive(s[1..]);
    }
  }

  /** Negating a rate entry gives back the stored derivative, in every data
      case and for both domains; the x series of fraction and rate agree. */
  lemma RateUndoesNegation(token: string, td: TimeData)
    requires token == RPO_MD || token == RPO_RD
    ensures var d := PlotDicts(token, td).dict;
      && d.time.fraction.xs == d.time.rate.xs == td.t
      && d.temp.fraction.xs == d.temp.rate.xs == td.T
      && Neg(d.time.rate.ys) == (if token == RPO_MD then td.dghatdt else td.dgdt)
      && Neg(d.temp.rate.ys) == (if token == RPO_MD then td.dghatdT else td.dgdT)
  {
    NegInvolutive(td.dghatdt);
    NegInvolutive(td.dghatdT);
    NegInvolutive(td.dgdt);
    NegInvolutive(td.dgdT);
  }

  /** A token other than the three accepted ones produces no dictionary. */
  lemma UnknownCaseFails(token: string, td: TimeData)
    requires token != RPO_LABS && token != RPO_MD && token != RPO_RD
    ensures PlotDicts(token, td) == UnboundLocalError
  {
  }

  /** Time-resolved rate of a small modelled data set. */
  lemma ModeledRateExample()
    ensures var td := TimeData([0.0, 1.0, 2.0], [], [], [], [], [1.0, 0.5, 0.0], [-0.5, -0.5, -0.5], []);
      PlotDicts(RPO_MD, td).dict.time.rate == SeriesPair([0.0, 1.0, 2.0], [0.5, 0.5, 0.5])
  {
    var ys := Neg([-0.5, -0.5, -0.5]);
    assert ys == [0.5, 0.5, 0.5];
  }

  /* ======================================================================
   * Legend de-duplication (_rem_dup_leg)
   * ====================================================================== */

  function Min(a: nat, b: nat): nat
  {
    if a <= b then a else b
  }

  /** Python's zip: position-wise pairs up to the end of the shorter list. */
  function Zip<H>(han: seq<H>, lab: seq<string>): (r: seq<(H, string)>)
    ensures |r| <= |han| && |r| <= |lab|
    ensures |r| == |han| || |r| == |lab|
    ensures forall i :: 0 <= i < |r| ==> r[i].0 == han[i] && r[i].1 == lab[i]
  {
    seq(Min(|han|, |lab|), i requires 0 <= i < Min(|han|, |lab|) => (han[i], lab[i]))
  }

  function Handles<H>(p: seq<(H, string)>): seq<H>
  {
    seq(|p|, i requires 0 <= i < |p| => p[i].0)
  }

  function Labels<H>(p: seq<(H, string)>): seq<string>
  {
    seq(|p|, i requires 0 <= i < |p| => p[i].1)
  }

  ghost predicate Distinct(s: seq<string>)
  {
    forall i, j :: 0 <= i < j < |s| ==> s[i] != s[j]
  }

  ghost function Elements(s: seq<string>): set<string>
  {
    set x | x in s
  }

  /** Reference definition of the loop: each pair, taken in order, is kept
      exactly when its label is not yet among the kept labels. */
  function Dedup<H>(p: seq<(H, string)>): (r: seq<(H, string)>)
    ensures |r| <= |p|
    ensures forall x :: x in r ==> x in p
  {
    if p == [] then []
    else
      var d := Dedup(p[..|p| - 1]);
      if p[|p| - 1].1 in Labels(d) then d else d + [p[|p| - 1]]
  }

  /** Pair i is the first pair of p that carries its label. */
  ghost predicate FirstOccurrence<H>(p: seq<(H, string)>, i: nat)
    requires i < |p|
  {
    forall j :: 0 <= j < i ==> p[j].1 != p[i].1
  }

  /** Independent reference: the positions of first occurrences, ascending. */
  ghost function KeptIndices<H>(p: seq<(H, string)>): seq<nat>
  {
    if p == [] then []
    else
      var k := KeptIndices(p[..|p| - 1]);
      if FirstOccurrence(p, |p| - 1) then k + [|p| - 1] else k
  }

  /** KeptIndices lists, in strictly increasing order, every first occurrence
      of a label in p and nothing else. */
  lemma {:induction false} KeptIndicesAreFirstOccurrences<H>(p: seq<(H, string)>)
    ensures var k := KeptIndices(p);
      && (forall a, b :: 0 <= a < b < |k| ==> k[a] < k[b])
      && (forall a :: 0 <= a < |k| ==> k[a] < |p| && FirstOccurrence(p, k[a]))
      && (forall i :: 0 <= i < |p| && FirstOccurrence(p, i) ==> i in k)
  {
    if p != [] {
      var q := p[..|p| - 1];
      KeptIndicesAreFirstOccurrences(q);
      forall i | 0 <= i < |q|
        ensures FirstOccurrence(q, i) == FirstOccurrence(p, i)
      {
        assert forall j :: 0 <= j < i ==> q[j] == p[j];
      }
    }
  }

  lemma ElementsAppend(s: seq<string>, y: string)
    ensures Elements(s + [y]) == Elements(s) + {y}
  {
    assert forall z :: z in s + [y] <==> z in s || z == y;
  }

  /** The kept labels are exactly the labels of the input. */
  lemma {:induction false} DedupCoversLabels<H>(p: seq<(H, string)>)
    ensures Elements(Labels(Dedup(p))) == Elements(Labels(p))
  {
    if p != [] {
      var q := p[..|p| - 1];
      var x := p[|p| - 1];
      DedupCoversLabels(q);
      assert Labels(p) == Labels(q) + [x.1];
      ElementsAppend(Labels(q), x.1);
      var d := Dedup(q);
      if x.1 !in Labels(d) {
        assert Labels(d + [x]) == Labels(d) + [x.1];
        ElementsAppend(Labels(d), x.1);
      }
    }
  }

  /** No label is kept twice. */
  lemma {:induction false} DedupDistinct<H>(p: seq<(H, string)>)
    ensures Distinct(Labels(Dedup(p)))
  {
    if p != [] {
      var q := p[..|p| - 1];
      var x := p[|p| - 1];
      DedupDistinct(q);
      var d := Dedup(q);
      if x.1 !in Labels(d) {
        assert Labels(d + [x]) == Labels(d) + [x.1];
      }
    }
  }

  /** Dedup is the subsequence of p at the first-occurrence positions: the
      first pair with each label is kept, and every later one is dropped,
      whatever its handle. */
  lemma {:induction false} DedupIsFirstOccurrences<H>(p: seq<(H, string)>)
    ensures |Dedup(p)| == |KeptIndices(p)|
    ensures forall a :: 0 <= a < |Dedup(p)| ==>
      KeptIndices(p)[a] < |p| && Dedup(p)[a] == p[KeptIndices(p)[a]]
  {
    if p != [] {
      var q := p[..|p| - 1];
      var x := p[|p| - 1];
      DedupIsFirstOccurrences(q);
      DedupCoversLabels(q);
      KeptIndicesAreFirstOccurrences(q);
      assert x.1 in Labels(Dedup(q)) <==> x.1 in Elements(Labels(q));
      if FirstOccurrence(p, |p| - 1) {
        assert x.1 !in Labels(q);
      } else {
        var j :| 0 <= j < |p| - 1 && p[j].1 == x.1;
        assert Labels(q)[j] == x.1;
      }
    }
  }

  lemma {:induction false} DistinctCardinality(s: seq<string>)
    requires Distinct(s)
    ensures |Elements(s)| == |s|
  {
    if s != [] {
      var q := s[..|s| - 1];
      DistinctCardinality(q);
      assert Elements(s) == Elements(q) + {s[|s| - 1]};
      assert s[|s| - 1] !in Elements(q);
    }
  }

  /** As many pairs are kept as there are distinct labels. */
  lemma DedupLength<H>(p: seq<(H, string)>)
    ensures |Dedup(p)| == |Elements(Labels(p))|
  {
    DedupDistinct(p);
    DedupCoversLabels(p);
    DistinctCardinality(Labels(Dedup(p)));
  }

  /** Input without duplicate labels passes through unchanged. */
  lemma {:induction false} DedupOfDistinct<H>(p: seq<(H, string)>)
    requires Distinct(Labels(p))
    ensures Dedup(p) == p
  {
    if p != [] {
      var q := p[..|p| - 1];
      assert Labels(q) == Labels(p)[..|p| - 1];
      DedupOfDistinct(q);
      forall j | 0 <= j < |q|
        ensures Labels(q)[j] != p[|p| - 1].1
      {
        assert Labels(p)[j] != Labels(p)[|p| - 1];
      }
      assert q + [p[|p| - 1]] == p;
    }
  }

  /** Removing duplicates a second time changes nothing. */
  lemma DedupIdempotent<H>(p: seq<(H, string)>)
    ensures Dedup(Dedup(p)) == Dedup(p)
  {
    DedupDistinct(p);
    DedupOfDistinct(Dedup(p));
  }

  /** Pairs beyond the end of the shorter list never reach the loop. */
  lemma ZipIgnoresSurplus<H>(han: seq<H>, lab: seq<string>, moreHan: seq<H>)
    requires |lab| <= |han|
    ensures Zip(han + moreHan, lab) == Zip(han, lab)
    ensures Labels(Zip(han, lab)) == lab
  {
  }

  /** Labels beyond the end of the handle list never reach the loop either. */
  lemma ZipIgnoresSurplusLabels<H>(han: seq<H>, lab: seq<string>, moreLab: seq<string>)
    requires |han| <= |lab|
    ensures Zip(han, lab + moreLab) == Zip(han, lab)
    ensures Handles(Zip(han, lab)) == han
  {
  }

  /** _rem_dup_leg, with ax.get_legend_handles_labels() given as the two lists
      han and lab. */
  method RemDupLeg<H>(han: seq<H>, lab: seq<string>) returns (hanList: seq<H>, labList: seq<string>)
    ensures hanList == Handles(Dedup(Zip(han, lab)))
    ensures labList == Labels(Dedup(Zip(han, lab)))
    ensures |hanList| == |labList|
    ensures Distinct(labList)
    ensures Elements(labList) == Elements(lab[..Min(|han|, |lab|)])
    ensures |labList| == |Elements(lab[..Min(|han|, |lab|)])|
    ensures |hanList| == |KeptIndices(Zip(han, lab))|
    ensures forall a :: 0 <= a < |hanList| ==>
      && KeptIndices(Zip(han, lab))[a] < Min(|han|, |lab|)
      && hanList[a] == han[KeptIndices(Zip(han, lab))[a]]
      && labList[a] == lab[KeptIndices(Zip(han, lab))[a]]
  {
    var pairs := Zip(han, lab);
    hanList, labList := [], [];
    for i := 0 to |pairs|
      invariant hanList == Handles(Dedup(pairs[..i]))
      invariant labList == Labels(Dedup(pairs[..i]))
    {
      assert pairs[..i + 1][..i] == pairs[..i];
      var (h, l) := pairs[i];
      if l !in labList {
        ghost var d := Dedup(pairs[..i]);
        assert Handles(d + [pairs[i]]) == Handles(d) + [h];
        assert Labels(d + [pairs[i]]) == Labels(d) + [l];
        hanList := hanList + [h];
        labList := labList + [l];
      }
    }
    assert pairs[..|pairs|] == pairs;
    assert Labels(pairs) == lab[..Min(|han|, |lab|)];
    DedupDistinct(pairs);
    DedupCoversLabels(pairs);
    DedupLength(pairs);
    DedupIsFirstOccurrences(pairs);
  }

  /** Legend entries (h1,A), (h2,B), (h3,A), (h4,C) reduce to h1, h2, h4 with
      labels A, B, C. */
  lemma RemDupLegExample(h1: int, h2: int, h3: int, h4: int)
    ensures Dedup(Zip([h1, h2, h3, h4], ["A", "B", "A", "C"])) == [(h1, "A"), (h2, "B"), (h4, "C")]
  {
    var p := Zip([h1, h2, h3, h4], ["A", "B", "A", "C"]);
    assert p == [(h1, "A"), (h2, "B"), (h3, "A"), (h4, "C")];
    assert p[..2][..1] == p[..1];
    assert p[..3][..2] == p[..2];
    assert p[..|p| - 1] == p[..3];
    assert Dedup(p[..1]) == [(h1, "A")];
    assert Dedup(p[..2]) == [(h1, "A"), (h2, "B")];
    assert Labels(Dedup(p[..2])) == ["A", "B"];
    assert Dedup(p[..3]) == [(h1, "A"), (h2, "B")];
  }
}
