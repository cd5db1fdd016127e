/**
 * The day-type line of the single-prediction summary: the labels of the
 * ticked day flags (weekend, holiday, school vacation, in that order) are
 * appended one by one to a list, which is then joined with " • ", or shown
 * as "-" when no flag is ticked.
 */
module DayFlags {
  import opened Sequences
  import opened Translations

  const Separator: string := " \U{2022} "
  const NoFlags: string := "-"

  /** The number of set flags. */
  function CountSet(flags: seq<bool>): nat
    decreases |flags|
  {
    if flags == [] then 0 else (if flags[0] then 1 else 0) + CountSet(flags[1..])
  }

  /**
   * The labels whose flag is set, in the order of the labels. With repeated
   * labels the clauses below leave the order open; `SelectedSnoc` pins the
   * list down exactly, one flag at a time.
   */
  function SelectedLabels(flags: seq<bool>, labels: seq<string>): (selected: seq<string>)
    requires |flags| == |labels|
    ensures |selected| == CountSet(flags)
    ensures IsSubsequence(selected, labels)
    ensures forall i :: 0 <= i < |labels| && flags[i] ==> labels[i] in selected
    decreases |flags|
  {
    if flags == [] then []
    else if flags[0] then [labels[0]] + SelectedLabels(flags[1..], labels[1..])
    else SelectedLabels(flags[1..], labels[1..])
  }

  /**
   * Selecting over one more flag appends that flag's label when it is set:
   * the list can be built front to back by conditional appends.
   */
  lemma {:induction false} SelectedSnoc(flags: seq<bool>, labels: seq<string>, flag: bool, next: string)
    requires |flags| == |labels|
    ensures SelectedLabels(flags + [flag], labels + [next])
         == SelectedLabels(flags, labels) + (if flag then [next] else [])
    decreases |flags|
  {
    if flags != [] {
      assert (flags + [flag])[1..] == flags[1..] + [flag];
      assert (labels + [next])[1..] == labels[1..] + [next];
      SelectedSnoc(flags[1..], labels[1..], flag, next);
    }
  }

  /** Nothing is selected exactly when no flag is set. */
  lemma {:induction false} NoneSelectedIff(flags: seq<bool>)
    ensures CountSet(flags) == 0 <==> forall i :: 0 <= i < |flags| ==> !flags[i]
    decreases |flags|
  {
    if flags != [] {
      NoneSelectedIff(flags[1..]);
      assert forall i :: 1 <= i < |flags| ==> flags[i] == flags[1..][i - 1];
    }
  }

  /** `flags_str`: the joined labels, or "-" when there are none. */
  function Summary(selected: seq<string>): string
  {
    if selected == [] then NoFlags else Join(Separator, selected)
  }

  /** Appending one more label to a non-empty list adds a separator and that label at the end. */
  lemma SummarySnoc(selected: seq<string>, next: string)
    requires selected != []
    ensures Summary(selected + [next]) == Summary(selected) + Separator + next
  {
    JoinSnoc(Separator, selected, next);
  }

  /** With at least one label, the summary is the labels plus a three-character separator between each pair. */
  lemma SummaryLength(selected: seq<string>)
    requires selected != []
    ensures |Summary(selected)| == TotalLength(selected) + 3 * (|selected| - 1)
  {
  }

  /** Weekend and school vacation ticked, holiday not: the two labels around one separator. */
  lemma WeekendAndVacation(w: string, h: string, v: string)
    ensures Summary(SelectedLabels([true, false, true], [w, h, v])) == w + Separator + v
  {
    assert [true, false, true][1..] == [false, true] && [w, h, v][1..] == [h, v];
    assert [false, true][1..] == [true] && [h, v][1..] == [v];
    assert SelectedLabels([true, false, true], [w, h, v]) == [w, v];
    assert [w, v][1..] == [v];
    assert Join(Separator, [w, v]) == w + Separator + Join(Separator, [v]);
  }

  /** With every flag set, every label is selected. */
  lemma {:induction false} AllSetSelectsAll(flags: seq<bool>, labels: seq<string>)
    requires |flags| == |labels|
    requires forall i :: 0 <= i < |flags| ==> flags[i]
    ensures SelectedLabels(flags, labels) == labels
    decreases |flags|
  {
    if flags != [] {
      assert flags[0];
      AllSetSelectsAll(flags[1..], labels[1..]);
      assert labels == [labels[0]] + labels[1..];
    }
  }

  /** All three ticked: the labels in the order weekend, holiday, vacation. */
  lemma AllThreeFlags(w: string, h: string, v: string)
    ensures Summary(SelectedLabels([true, true, true], [w, h, v])) == w + Separator + h + Separator + v
  {
    AllSetSelectsAll([true, true, true], [w, h, v]);
    JoinSnoc(Separator, [w], h);
    JoinSnoc(Separator, [w, h], v);
    assert [w] + [h] == [w, h] && [w, h] + [v] == [w, h, v];
  }

  /**
   * Builds the day-type line as the page does: start from an empty list,
   * append the label of each ticked flag in turn, then join.
   */
  method DayFlagsSummary(table: Table, lang: string, isWeekend: bool, isHoliday: bool, isSchoolVacation: bool)
    returns (flagsStr: string)
    requires English in table
    ensures !isWeekend && !isHoliday && !isSchoolVacation ==> flagsStr == NoFlags
    ensures flagsStr == Summary(SelectedLabels([isWeekend, isHoliday, isSchoolVacation],
                                               [GetText(table, "weekend", lang),
                                                GetText(table, "holiday", lang),
                                                GetText(table, "vacation", lang)]))
  {
    ghost var labels := [GetText(table, "weekend", lang), GetText(table, "holiday", lang), GetText(table, "vacation", lang)];
    ghost var flags := [isWeekend, isHoliday, isSchoolVacation];
    var dayFlags: seq<string> := [];
    if isWeekend {
      dayFlags := dayFlags + [GetText(table, "weekend", lang)];
    }
    SelectedSnoc([], [], isWeekend, labels[0]);
    assert dayFlags == SelectedLabels(flags[..1], labels[..1]);
    if isHoliday {
      dayFlags := dayFlags + [GetText(table, "holiday", lang)];
    }
    SelectedSnoc(flags[..1], labels[..1], isHoliday, labels[1]);
    assert flags[..1] + [isHoliday] == flags[..2] && labels[..1] + [labels[1]] == labels[..2];
    if isSchoolVacation {
      dayFlags := dayFlags + [GetText(table, "vacation", lang)];
    }
    SelectedSnoc(flags[..2], labels[..2], isSchoolVacation, labels[2]);
    assert flags[..2] + [isSchoolVacation] == flags && labels[..2] + [labels[2]] == labels;
    flagsStr := if dayFlags != [] then Join(Separator, dayFlags) else NoFlags;
  }
}
