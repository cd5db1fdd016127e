/**
 * The batch-upload gate of the prediction page: the nine feature columns the
 * estimator was fitted on, the list of those an uploaded table lacks, and the
 * selection of the nine columns, in canonical order, that is handed to the
 * estimator only when none is missing.
 */
module RequiredColumns {
  import opened Wrappers
  import opened Sequences

  /** The feature names in the order the estimator was fitted on. */
  const Required: seq<string> := [
    "t2m_min", "t2m_max", "tp_total", "sd_total", "i10fg_max",
    "sf_max", "is_weekend", "is_holiday", "is_school_vacation"
  ]

  /** The names of `names` that are not among `cols`, in the order of `names`. */
  function MissingFrom(names: seq<string>, cols: set<string>): (missing: seq<string>)
    ensures forall x :: x in missing <==> x in names && x !in cols
    ensures IsSubsequence(missing, names)
    decreases |names|
  {
    if names == [] then []
    else if names[0] in cols then MissingFrom(names[1..], cols)
    else [names[0]] + MissingFrom(names[1..], cols)
  }

  /** `missing_cols`: the required names absent from a table's columns, in canonical order. */
  function MissingColumns(cols: set<string>): (missing: seq<string>)
    ensures forall x :: x in missing <==> x in Required && x !in cols
    ensures IsSubsequence(missing, Required)
  {
    MissingFrom(Required, cols)
  }

  lemma RequiredDistinct()
    ensures Distinct(Required)
  {
  }

  /**
   * The missing list is a selection from the canonical list: it names no
   * column twice and has at most nine entries.
   */
  lemma MissingColumnsShape(cols: set<string>)
    ensures Distinct(MissingColumns(cols))
    ensures |MissingColumns(cols)| <= |Required| == 9
  {
    RequiredDistinct();
    SubsequenceOfDistinct(MissingColumns(cols), Required);
    SubsequenceBounds(MissingColumns(cols), Required);
  }

  /** Nothing is reported missing exactly when all nine names are columns. */
  lemma NoneMissingIff(cols: set<string>)
    ensures MissingColumns(cols) == [] <==> forall x :: x in Required ==> x in cols
  {
  }

  /**
   * A table that has every required column but `t2m_min` and `is_holiday`
   * (whatever else it has) is told of exactly those two, in canonical order.
   */
  lemma TwoMissingExample(cols: set<string>)
    requires "t2m_min" !in cols && "is_holiday" !in cols
    requires "t2m_max" in cols && "tp_total" in cols && "sd_total" in cols && "i10fg_max" in cols
    requires "sf_max" in cols && "is_weekend" in cols && "is_school_vacation" in cols
    ensures MissingColumns(cols) == ["t2m_min", "is_holiday"]
  {
  }

  /** An uploaded table: column name -> that column's values, one per row. */
  type Frame<V> = map<string, seq<V>>

  /** `df[names]`: the named columns, in the order of `names`. */
  function SelectColumns<V>(frame: Frame<V>, names: seq<string>): (columns: seq<seq<V>>)
    requires forall x :: x in names ==> x in frame
    ensures |columns| == |names|
    ensures forall i :: 0 <= i < |names| ==> columns[i] == frame[names[i]]
    decreases |names|
  {
    if names == [] then [] else [frame[names[0]]] + SelectColumns(frame, names[1..])
  }

  /**
   * Check-then-select over a list of required names: refuse with the names
   * the table lacks, in list order, or select exactly those columns in list order.
   */
  function Gate<V>(frame: Frame<V>, names: seq<string>): (r: Result<seq<seq<V>>, seq<string>>)
    ensures r.Failure? <==> exists x :: x in names && x !in frame
    ensures r.Failure? ==> r.error == MissingFrom(names, frame.Keys) && r.error != []
    ensures r.Success? ==>
      && |r.value| == |names|
      && forall i :: 0 <= i < |names| ==> names[i] in frame && r.value[i] == frame[names[i]]
  {
    var missing := MissingFrom(names, frame.Keys);
    if missing != [] then
      assert missing[0] in missing;
      Failure(missing)
    else Success(SelectColumns(frame, names))
  }

  /**
   * The gate in front of `predict_batch`: a table lacking required columns is
   * refused with the missing names (the error the page shows); otherwise the
   * estimator receives `df[required_cols]`, the nine columns in canonical
   * order, copied as they are.
   */
  function PrepareBatch<V>(frame: Frame<V>): (r: Result<seq<seq<V>>, seq<string>>)
    ensures r.Failure? <==> exists x :: x in Required && x !in frame
    ensures r.Failure? ==> r.error == MissingColumns(frame.Keys) && r.error != []
    ensures r.Success? ==>
      && |r.value| == |Required|
      && forall i :: 0 <= i < |Required| ==> Required[i] in frame && r.value[i] == frame[Required[i]]
  {
    Gate(frame, Required)
  }
}
