/**
 * The heatmap analytics route: the per-ISO-weekday counts from the database are laid
 * onto the fixed week Mon..Sun, a day without a row showing 0.
 */
module Heatmap {
  import opened Wrappers

  /** One row of the group-by-weekday query: ISO day of week (1 = Monday) and a count. */
  datatype DayCount = DayCount(day: int, count: int)

  /** One entry of the response. */
  datatype DayValue = DayValue(day: string, value: int)

  const Days: seq<string> := ["Mon", "Tue", "Wed", "Thu", "Fri", "Sat", "Sun"]

  /** Array.prototype.find on `Number(r.day) === dow`: the index of the first matching row. */
  function FindDay(rows: seq<DayCount>, dow: int): (r: Option<nat>)
    ensures r.Some? ==> (r.value < |rows| && rows[r.value].day == dow
      && forall j :: 0 <= j < r.value ==> rows[j].day != dow)
    ensures r.None? ==> forall j :: 0 <= j < |rows| ==> rows[j].day != dow
  {
    if |rows| == 0 then None
    else if rows[0].day == dow then Some(0)
    else
      match FindDay(rows[1..], dow)
      case None => None
      case Some(j) => Some(j + 1)
  }

  /** `found ? Number(found.count) : 0`. */
  function ValueFor(rows: seq<DayCount>, dow: int): (v: int)
    ensures (forall j :: 0 <= j < |rows| ==> rows[j].day != dow) ==> v == 0
    ensures forall j :: 0 <= j < |rows| && rows[j].day == dow && (forall j' :: 0 <= j' < j ==> rows[j'].day != dow) ==>
      v == rows[j].count
  {
    match FindDay(rows, dow)
    case Some(j) => rows[j].count
    case None => 0
  }

  /**
   * The response: always seven entries labelled Mon..Sun; entry i holds the count of the
   * first row for ISO day i + 1, or 0 when there is none.
   */
  function Fill(rows: seq<DayCount>): (r: seq<DayValue>)
    ensures |r| == |Days|
    ensures forall i :: 0 <= i < |Days| ==> r[i].day == Days[i]
    ensures forall i :: 0 <= i < |Days| && (forall j :: 0 <= j < |rows| ==> rows[j].day != i + 1) ==> r[i].value == 0
    ensures forall i, j ::
      (0 <= i < |Days| && 0 <= j < |rows| && rows[j].day == i + 1
       && forall j' :: 0 <= j' < j ==> rows[j'].day != i + 1) ==> r[i].value == rows[j].count
  {
    seq(|Days|, i requires 0 <= i < |Days| => DayValue(Days[i], ValueFor(rows, i + 1)))
  }

  /** The search looks at the head first and otherwise at the rest. */
  lemma ValueForCons(y: DayCount, rest: seq<DayCount>, dow: int)
    ensures ValueFor([y] + rest, dow) == if y.day == dow then y.count else ValueFor(rest, dow)
  {
    assert ([y] + rest)[1..] == rest;
  }

  /** Inserting a row for another day anywhere does not change a day's value. */
  lemma {:induction false} ValueForSkips(a: seq<DayCount>, x: DayCount, b: seq<DayCount>, dow: int)
    requires x.day != dow
    ensures ValueFor(a + [x] + b, dow) == ValueFor(a + b, dow)
  {
    if |a| == 0 {
      assert a + [x] + b == [x] + b;
      assert a + b == b;
      ValueForCons(x, b, dow);
    } else {
      assert a + [x] + b == [a[0]] + (a[1..] + [x] + b);
      assert a + b == [a[0]] + (a[1..] + b);
      ValueForCons(a[0], a[1..] + [x] + b, dow);
      ValueForCons(a[0], a[1..] + b, dow);
      ValueForSkips(a[1..], x, b, dow);
    }
  }

  /** Rows whose day lies outside 1..7 do not affect the response. */
  lemma OutOfRangeIgnored(a: seq<DayCount>, x: DayCount, b: seq<DayCount>)
    requires x.day < 1 || x.day > 7
    ensures Fill(a + [x] + b) == Fill(a + b)
  {
    forall dow | 1 <= dow <= |Days| ensures ValueFor(a + [x] + b, dow) == ValueFor(a + b, dow) {
      ValueForSkips(a, x, b, dow);
    }
  }

  /** Non-negative counts give non-negative values. */
  lemma NonNegative(rows: seq<DayCount>)
    requires forall j :: 0 <= j < |rows| ==> rows[j].count >= 0
    ensures forall i :: 0 <= i < |Days| ==> Fill(rows)[i].value >= 0
  {
  }
}
