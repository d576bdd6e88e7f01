/**
 * The brush filter of the parallel-coordinates plot
 * (parallel_plots_brushing/script.js). Each axis carries a one-dimensional
 * brush; the plot keeps a map from axis key to the brushed data-space
 * interval and, after every brush event, re-tests every line (record)
 * against all stored intervals and publishes the active records.
 *
 * Intervals arrive already in data space: the inversion of the pixel
 * extent through the axis scale is not part of this model.
 */
module Brushing {
  import opened Wrappers
  import Sorting

  /**
   * A loaded CSV row: column name to number. A `null` cell is held as 0,
   * the value JavaScript's relational operators coerce `null` to; a
   * column missing from the map reads as `undefined`, which no
   * comparison accepts.
   */
  type Record = map<string, real>

  /** A brushed extent `[min, max]` in data units, in the order the brush reports it. */
  datatype Interval = Interval(min: real, max: real)

  /**
   * The value `d[key]` of a record. The 0 for a missing column is a
   * placeholder only: the sort reads the colour column, which `Brush`'s
   * constructor requires in every record.
   */
  function ValueAt(d: Record, key: string): real
  {
    if key in d then d[key] else 0.0
  }

  /**
   * Ascending order of the colour column, as d3's ascending comparator
   * gives it: `a` may come first when its value is not the larger.
   */
  function ColorOrder(colorKey: string): (Record, Record) -> bool
  {
    (a: Record, b: Record) => ValueAt(a, colorKey) <= ValueAt(b, colorKey)
  }

  lemma ColorOrderIsTotalPreorder(colorKey: string)
    ensures Sorting.IsTotalPreorder(ColorOrder(colorKey))
  {
  }

  /** The record's value on `key` lies in the interval, both bounds inclusive; endpoints are not reordered. */
  predicate Within(d: Record, key: string, iv: Interval)
  {
    key in d && iv.min <= d[key] && d[key] <= iv.max
  }

  /** A record is active when it lies within every stored interval. */
  predicate Active(d: Record, selections: map<string, Interval>)
  {
    forall key :: key in selections ==> Within(d, key, selections[key])
  }

  /**
   * The selections after one brush event on `key`: a `null` selection
   * deletes the key, any other selection sets (replaces) its interval.
   */
  function Store(selections: map<string, Interval>, key: string, selection: Option<Interval>)
    : (r: map<string, Interval>)
    ensures selection.None? ==> key !in r
    ensures selection.Some? ==> key in r && r[key] == selection.value
    ensures forall k :: k != key ==> (k in r <==> k in selections)
    ensures forall k :: k != key && k in r ==> r[k] == selections[k]
  {
    match selection
    case None => selections - {key}
    case Some(iv) => selections[key := iv]
  }

  /** The active records of `paths`, in the order of `paths`. */
  function Selected(paths: seq<Record>, selections: map<string, Interval>): seq<Record>
  {
    if paths == [] then []
    else
      var last := paths[|paths| - 1];
      Selected(paths[..|paths| - 1], selections) + (if Active(last, selections) then [last] else [])
  }

  /**
   * The per-record activity test: walks the stored intervals and stops
   * at the first one the record falls outside of.
   */
  method Every(d: Record, selections: map<string, Interval>) returns (active: bool)
    ensures active == Active(d, selections)
  {
    var rest := selections.Keys;
    active := true;
    while rest != {} && active
      invariant rest <= selections.Keys
      invariant active ==> forall k :: k in selections && k !in rest ==> Within(d, k, selections[k])
      invariant !active ==> exists k :: k in selections && !Within(d, k, selections[k])
      decreases rest
    {
      var key :| key in rest;
      active := Within(d, key, selections[key]);
      rest := rest - {key};
    }
  }

  /**
   * The plot's brushing state: the lines in creation (selection) order (`paths`), the
   * stored intervals (`selections`) and the last published list of
   * active records (`selected`, the chart's `value`).
   */
  class Brush {
    const paths: seq<Record>
    var selections: map<string, Interval>
    var selected: seq<Record>

    /**
     * Draws one line per record, in ascending order of the colour column
     * (a sorted copy of the data); nothing is brushed yet.
     */
    constructor (data: seq<Record>, colorKey: string)
      requires forall d :: d in data ==> colorKey in d
      ensures multiset(paths) == multiset(data)
      ensures forall i, j :: 0 <= i < j < |paths| ==> ValueAt(paths[i], colorKey) <= ValueAt(paths[j], colorKey)
      ensures selections == map[] && selected == []
    {
      var lines := new Record[|data|](i requires 0 <= i < |data| => data[i]);
      assert lines[..] == data;
      ColorOrderIsTotalPreorder(colorKey);
      Sorting.InsertionSort(lines, ColorOrder(colorKey));
      paths := lines[..];
      selections := map[];
      selected := [];
    }

    /**
     * The brush handler for axis `key`: updates the stored interval, then
     * rebuilds `selected` from empty by testing every line in creation (selection) order.
     */
    method Brushed(key: string, selection: Option<Interval>)
      modifies this
      ensures selections == Store(old(selections), key, selection)
      ensures selected == Selected(paths, selections)
    {
      match selection {
        case None => selections := selections - {key};
        case Some(iv) => selections := selections[key := iv];
      }
      var chosen: seq<Record> := [];
      var i := 0;
      while i < |paths|
        invariant 0 <= i <= |paths|
        invariant selections == Store(old(selections), key, selection)
        invariant chosen == Selected(paths[..i], selections)
      {
        var active := Every(paths[i], selections);
        if active {
          chosen := chosen + [paths[i]];
        }
        assert paths[..i + 1][..i] == paths[..i];
        i := i + 1;
      }
      assert paths[..i] == paths;
      selected := chosen;
    }
  }

  /** Records from an earlier stretch of the lines are listed before records from a later one. */
  lemma {:induction false} SelectedAppend(p: seq<Record>, q: seq<Record>, selections: map<string, Interval>)
    ensures Selected(p + q, selections) == Selected(p, selections) + Selected(q, selections)
    decreases |q|
  {
    if q == [] {
      assert p + q == p;
    } else {
      var q' := q[..|q| - 1];
      assert (p + q)[..|p + q| - 1] == p + q';
      SelectedAppend(p, q', selections);
    }
  }

  /**
   * `selected` holds exactly the active lines: each active record as often
   * as it is drawn, and no inactive record.
   */
  lemma {:induction false} SelectedExactlyActive(paths: seq<Record>, selections: map<string, Interval>)
    ensures forall d :: d in Selected(paths, selections) <==> d in paths && Active(d, selections)
    ensures forall d :: multiset(Selected(paths, selections))[d] ==
                          if Active(d, selections) then multiset(paths)[d] else 0
  {
    if paths != [] {
      var init := paths[..|paths| - 1];
      var last := paths[|paths| - 1];
      assert paths == init + [last];
      SelectedExactlyActive(init, selections);
      assert multiset(paths) == multiset(init) + multiset{last};
    }
  }

  /** With no stored interval (every brush cleared), every line is selected. */
  lemma {:induction false} NoSelectionsSelectAll(paths: seq<Record>)
    ensures Selected(paths, map[]) == paths
  {
    if paths != [] {
      NoSelectionsSelectAll(paths[..|paths| - 1]);
    }
  }

  /** A stored interval whose `min` exceeds its `max` lets no line through. */
  lemma {:induction false} ReversedIntervalSelectsNothing(
    paths: seq<Record>, selections: map<string, Interval>, key: string)
    requires key in selections && selections[key].min > selections[key].max
    ensures Selected(paths, selections) == []
  {
    if paths != [] {
      ReversedIntervalSelectsNothing(paths[..|paths| - 1], selections, key);
    }
  }

  /** Replaying a brush event leaves the stored intervals, hence `selected`, as they were. */
  lemma RepeatedEventIsIdempotent(
    selections: map<string, Interval>, key: string, selection: Option<Interval>, paths: seq<Record>)
    ensures Store(Store(selections, key, selection), key, selection) == Store(selections, key, selection)
    ensures Selected(paths, Store(Store(selections, key, selection), key, selection))
         == Selected(paths, Store(selections, key, selection))
  {
  }

  /**
   * Two successive brushes on a three-line plot: brushing `x` to [1, 2]
   * keeps the first two lines; brushing `y` to [4, 9] as well keeps the
   * first line only.
   */
  lemma TwoBrushesExample()
    ensures var a, b, c := map["x" := 1.0, "y" := 5.0], map["x" := 2.0, "y" := 3.0], map["x" := 3.0, "y" := 8.0];
      && Selected([a, b, c], Store(map[], "x", Some(Interval(1.0, 2.0)))) == [a, b]
      && Selected([a, b, c], Store(Store(map[], "x", Some(Interval(1.0, 2.0))), "y", Some(Interval(4.0, 9.0)))) == [a]
  {
    var a: Record, b: Record, c: Record := map["x" := 1.0, "y" := 5.0], map["x" := 2.0, "y" := 3.0], map["x" := 3.0, "y" := 8.0];
    var one := Store(map[], "x", Some(Interval(1.0, 2.0)));
    var two := Store(one, "y", Some(Interval(4.0, 9.0)));
    assert one == map["x" := Interval(1.0, 2.0)];
    assert two == map["x" := Interval(1.0, 2.0), "y" := Interval(4.0, 9.0)];
    assert Active(a, one) && Active(b, one) && Active(a, two);
    assert !Active(c, one) by { assert !Within(c, "x", one["x"]); }
    assert !Active(b, two) by { assert !Within(b, "y", two["y"]); }
    assert !Active(c, two) by { assert !Within(c, "x", two["x"]); }
    assert [a, b, c][..2] == [a, b] && [a, b][..1] == [a] && [a][..0] == [];
    assert Selected([a], one) == [a] && Selected([a], two) == [a];
    assert Selected([a, b], one) == [a, b] && Selected([a, b], two) == [a];
  }

  /** `narrow` constrains every axis `wide` constrains, each to a sub-interval. */
  predicate Narrows(narrow: map<string, Interval>, wide: map<string, Interval>)
  {
    forall k :: k in wide ==>
      k in narrow && wide[k].min <= narrow[k].min && narrow[k].max <= wide[k].max
  }

  /** Brushing a new axis, or narrowing an axis's interval, narrows the selections. */
  lemma StoreNarrows(selections: map<string, Interval>, key: string, iv: Interval)
    requires key in selections ==> selections[key].min <= iv.min && iv.max <= selections[key].max
    ensures Narrows(Store(selections, key, Some(iv)), selections)
  {
  }

  /** Clearing an axis's brush widens the selections. */
  lemma ClearWidens(selections: map<string, Interval>, key: string)
    ensures Narrows(selections, Store(selections, key, None))
  {
  }

  /**
   * Narrowing never turns an inactive line active: what is selected under
   * the narrower selections is a filter of what was selected before.
   */
  lemma {:induction false} NarrowingShrinksSelected(
    paths: seq<Record>, wide: map<string, Interval>, narrow: map<string, Interval>)
    requires Narrows(narrow, wide)
    ensures Selected(paths, narrow) == Selected(Selected(paths, wide), narrow)
    ensures |Selected(paths, narrow)| <= |Selected(paths, wide)|
  {
    if paths != [] {
      var init := paths[..|paths| - 1];
      var last := paths[|paths| - 1];
      NarrowingShrinksSelected(init, wide, narrow);
      var w := Selected(init, wide);
      if Active(last, wide) {
        assert Selected(paths, wide) == w + [last];
        SelectedAppend(w, [last], narrow);
        assert Selected([last], narrow) == if Active(last, narrow) then [last] else [] by {
          assert [last][..0] == [];
        }
      } else {
        assert !Active(last, narrow) by {
          var k :| k in wide && !Within(last, k, wide[k]);
          assert k in narrow;
        }
        assert Selected(paths, wide) == w;
        assert Selected(paths, narrow) == Selected(init, narrow);
      }
    }
  }
}
