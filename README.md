# rampedpyrox plotting helpers, modelled in Dafny

This project models `rampedpyrox/core/plotting_helper.py`. The file holds the two
helpers the Ramped PyrOx plotting routines call. It is a single Dafny module,
`PlottingHelper`, in `plotting_helper.dfy`.

- `_plot_dicts(case, td)` becomes the function `PlotDicts(token, td)`. It picks one of
  three nested tables keyed time/temp → fraction/rate. `'rpo_labs'` gives axis-label
  pairs. `'rpo_md'` gives (x series, modelled series) pairs and `'rpo_rd'` gives
  (x series, measured series) pairs. In both data cases each rate entry is the
  elementwise negated derivative. The `TimeData` instance is a datatype with the eight
  series the tables read, each a `seq<real>`. The nested dict is the record
  `PlotDict(time, temp)` of `ByRepresentation(fraction, rate)` records of `Pair`s, and
  `Lookup` reads it by the string keys a caller uses, giving `None` for a missing key.
  Any other token leaves `pl_dict` unbound, so the `return` raises. The model makes that an explicit `UnboundLocalError` result.
- `_rem_dup_leg(ax)` becomes the method `RemDupLeg(han, lab)`. The two lists that
  `ax.get_legend_handles_labels()` returns are its parameters, and handles have an
  opaque type `H`. The method loops over `Zip(han, lab)`, which stops at the shorter
  list as Python's `zip` does. It appends a pair to the two growing result lists only
  when the label is not yet in the label list. The method is proved equal to the reference
  function `Dedup`. Lemmas about `Dedup` give the properties below. A second,
  independent reference, `KeptIndices`, lists the positions of the first
  occurrences of each label.

The rate labels are the raw-string literals of lines 44 and 48, LaTeX markup
included: `fraction/time $(s^{-1})$` and `fraction/temp $(K^{-1})$`. An unknown token
gives the UnboundLocalError of line 73.

## Model

| member | source | states |
|---|---|---|
| `PlottingHelper.PlotDicts` | rampedpyrox/core/plotting_helper.py:17-73 | a dictionary is produced exactly when the token is one of `'rpo_labs'`, `'rpo_md'`, `'rpo_rd'`; the label case holds only label pairs at every (domain, representation) key, the two data cases only series pairs |
| `PlottingHelper.SeriesDict` | rampedpyrox/core/plotting_helper.py:53-71 | the dict literal of both data cases: every entry is a series pair; fraction and rate of the time domain share x series `t`, those of the temp domain share `T`; both fraction entries are the given fraction series; each rate entry is the matching derivative negated element by element |
| `PlottingHelper.Lookup` | rampedpyrox/core/plotting_helper.py:42-71 | a caller's subscript `pl_dict[dom][rep]` of the dicts built here: it succeeds exactly for `dom` in `'time'`, `'temp'` and `rep` in `'fraction'`, `'rate'` (otherwise a KeyError), and each of the four key pairs yields its own entry (`['time']['rate']` is the time-domain rate pair, and so on) |
| `PlottingHelper.LookupExtensional` | rampedpyrox/core/plotting_helper.py:42-71 | the four keyed entries make up the whole nested dict: two dicts that agree at every key are equal |
| `PlottingHelper.LabelCaseTable` | rampedpyrox/core/plotting_helper.py:40-49 | `'rpo_labs'` succeeds with the four literal label pairs, and its result is the same for any two data records |
| `PlottingHelper.ModeledCaseSeries` | rampedpyrox/core/plotting_helper.py:51-60 | `'rpo_md'` succeeds; x is `t` for time and `T` for temp; fraction is `ghat` unchanged; the rates are `dghatdt` and `dghatdT` negated element by element, with the same length |
| `PlottingHelper.RealCaseSeries` | rampedpyrox/core/plotting_helper.py:62-71 | `'rpo_rd'` succeeds with the same structure, built from `g`, `dgdt` and `dgdT` |
| `PlottingHelper.RealCaseIsModeledCaseOfMeasured` | rampedpyrox/core/plotting_helper.py:51-71 | the `'rpo_rd'` table equals the `'rpo_md'` table of the record whose modelled series are replaced by the measured ones |
| `PlottingHelper.RateUndoesNegation` | rampedpyrox/core/plotting_helper.py:51-71 | in both data cases, negating a rate entry gives back the stored derivative, and the fraction and rate entries of a domain share the x series `t` or `T` |
| `PlottingHelper.UnknownCaseFails` | rampedpyrox/core/plotting_helper.py:73 | every token other than the three accepted ones ends in the unbound-variable error |
| `PlottingHelper.ModeledRateExample` | rampedpyrox/core/plotting_helper.py:51-60 | with `t = [0,1,2]` and `dghatdt = [-0.5,-0.5,-0.5]`, the modelled time-rate pair is `([0,1,2], [0.5,0.5,0.5])` |
| `PlottingHelper.Neg` | rampedpyrox/core/plotting_helper.py:55 | the unary minus of a series keeps its length and negates every element |
| `PlottingHelper.NegInvolutive` | rampedpyrox/core/plotting_helper.py:55 | negating a series twice gives back the series |
| `PlottingHelper.Zip` | rampedpyrox/core/plotting_helper.py:96 | Python's `zip`: the result is no longer than either list and exactly as long as one of them, and position i pairs `han[i]` with `lab[i]` |
| `PlottingHelper.Dedup` | rampedpyrox/core/plotting_helper.py:96-101 | the loop written as a function on the zipped pairs: the result is no longer than the input and every kept pair is an input pair |
| `PlottingHelper.RemDupLeg` | rampedpyrox/core/plotting_helper.py:93-103 | the two results equal the handles and labels of `Dedup` of the zipped input. They have equal length, and the labels are pairwise distinct. The set of labels is the set of the first `min(len(han), len(lab))` input labels, and their number is the number of distinct labels there. Position a of both results comes from input position `KeptIndices[a]`, which is below both input lengths |
| `PlottingHelper.KeptIndicesAreFirstOccurrences` | rampedpyrox/core/plotting_helper.py:96-101 | the reference positions are strictly increasing and in range. Each is the first position with its label, and every first position of a label is among them |
| `PlottingHelper.DedupIsFirstOccurrences` | rampedpyrox/core/plotting_helper.py:96-101 | the loop's output is the input subsequence at exactly those positions. Order is kept, the first pair with each label is kept, and later pairs with the same label are dropped whatever their handle |
| `PlottingHelper.DedupDistinct` | rampedpyrox/core/plotting_helper.py:98-101 | no label appears twice in the output |
| `PlottingHelper.DedupCoversLabels` | rampedpyrox/core/plotting_helper.py:96-101 | the set of output labels equals the set of input labels |
| `PlottingHelper.DedupLength` | rampedpyrox/core/plotting_helper.py:96-101 | the output has as many pairs as the input has distinct labels |
| `PlottingHelper.DedupOfDistinct` | rampedpyrox/core/plotting_helper.py:96-101 | input whose labels are already distinct passes through unchanged |
| `PlottingHelper.DedupIdempotent` | rampedpyrox/core/plotting_helper.py:96-101 | removing duplicates from an already de-duplicated list changes nothing |
| `PlottingHelper.ZipIgnoresSurplus` | rampedpyrox/core/plotting_helper.py:96 | handles beyond the end of the label list do not change the zipped pairs, and zipping with at least as many handles keeps every label |
| `PlottingHelper.ZipIgnoresSurplusLabels` | rampedpyrox/core/plotting_helper.py:96 | labels beyond the end of the handle list do not change the zipped pairs, and zipping with at least as many labels keeps every handle |
| `PlottingHelper.RemDupLegExample` | rampedpyrox/core/plotting_helper.py:93-103 | the legend `(h1,A) (h2,B) (h3,A) (h4,C)` reduces to `(h1,A) (h2,B) (h4,C)` |

## Left out

- The axis object and `ax.get_legend_handles_labels()` (line 93): a foreign plotting-library call. Its two result lists are the parameters of `RemDupLeg`.
- numpy arrays and floating point: series are `seq<real>`, so unary minus is exact negation. Broadcasting and dtypes are not modelled.
- How `TimeData` computes its series, and a `td` that lacks an attribute (an `AttributeError` in Python). The record always carries all eight series. That code is not part of this model.
- A `case` argument that is not a string: the model takes a string token. For an ordinary non-string value Python's comparisons are false, so it would also end in the unbound-variable error.
- Aliasing between the dict and `td`: in the source the x entries and the fraction entries are `td`'s own arrays (`td.t`, `td.T`, `td.ghat`, `td.g`), so changing one of them in place through `pl_dict` also changes `td`, while the rate entries are new arrays. The model's records have value semantics and do not capture this sharing.
- The rendering of the LaTeX label strings: they are kept as opaque literals.
- The `__future__` imports, `__docformat__` and `__all__` (lines 6-12), and the numpy import (line 14).
