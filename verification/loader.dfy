/** `load_data`: restricting a city's trips to the selected month and day of the week. */
module Loader {
  import opened Trips

  /** The month choices the prompt accepts: "all" or one of the first six months. */
  const MonthChoices: seq<string> := ["all", "january", "february", "march", "april", "may", "june"]

  /** The day choices the prompt accepts: "all" or a weekday. */
  const DayChoices: seq<string> :=
    ["all", "monday", "tuesday", "wednesday", "thursday", "friday", "saturday", "sunday"]

  /** A selector `sel` lets a value `v` through: it is "all", or it is `v`. */
  predicate Selects(sel: string, v: string) {
    sel == "all" || v == sel
  }

  /** `sub` is `s` with some elements left out, the rest in their original order. */
  ghost predicate IsSubsequence<T>(sub: seq<T>, s: seq<T>)
    decreases |s|
  {
    sub == [] || (s != [] && ((sub[0] == s[0] && IsSubsequence(sub[1..], s[1..])) || IsSubsequence(sub, s[1..])))
  }

  lemma {:induction false} SubsequenceTransitive<T>(a: seq<T>, b: seq<T>, c: seq<T>)
    requires IsSubsequence(a, b) && IsSubsequence(b, c)
    ensures IsSubsequence(a, c)
    decreases |c|
  {
    if a != [] {
      if IsSubsequence(b, c[1..]) {
        SubsequenceTransitive(a, b, c[1..]);
      } else if a[0] == b[0] && IsSubsequence(a[1..], b[1..]) {
        SubsequenceTransitive(a[1..], b[1..], c[1..]);
      } else {
        SubsequenceTransitive(a, b[1..], c[1..]);
      }
    }
  }

  lemma {:induction false} SubsequenceReflexive<T>(s: seq<T>)
    ensures IsSubsequence(s, s)
  {
    if s != [] {
      SubsequenceReflexive(s[1..]);
    }
  }

  /** The two derived columns the filters compare. */
  datatype Column = MonthColumn | DayColumn

  function Cell(t: Trip, c: Column): string {
    match c
    case MonthColumn => t.month
    case DayColumn => t.dayOfWeek
  }

  /**
   * `df[df[c] == v]`: the rows whose column `c` holds `v`, all of them, each as often as in
   * the input, and in input order.
   */
  function Where(ts: seq<Trip>, c: Column, v: string): (r: seq<Trip>)
    ensures forall t :: t in r ==> Cell(t, c) == v
    ensures forall t :: Cell(t, c) == v ==> multiset(r)[t] == multiset(ts)[t]
    ensures IsSubsequence(r, ts)
  {
    if ts == [] then []
    else
      assert ts == [ts[0]] + ts[1..];
      if Cell(ts[0], c) == v then [ts[0]] + Where(ts[1..], c, v)
      else Where(ts[1..], c, v)
  }

  /** The filtering of `load_data`: first by month unless it is "all", then by day unless it is "all". */
  function LoadData(ts: seq<Trip>, month: string, day: string): (r: seq<Trip>)
    ensures forall t :: t in r ==> Selects(month, t.month) && Selects(day, t.dayOfWeek)
    ensures forall t: Trip :: Selects(month, t.month) && Selects(day, t.dayOfWeek) ==> multiset(r)[t] == multiset(ts)[t]
    ensures IsSubsequence(r, ts)
    ensures month == "all" && day == "all" ==> r == ts
  {
    var byMonth := if month != "all" then Where(ts, MonthColumn, month) else ts;
    var r := if day != "all" then Where(byMonth, DayColumn, day) else byMonth;
    SubsequenceReflexive(ts);
    SubsequenceReflexive(byMonth);
    SubsequenceTransitive(r, byMonth, ts);
    r
  }

  /**
   * With a month taken from the prompt's choices, the filtered trips all lie in January to
   * June, unless the choice was "all".
   */
  lemma FilteredMonthsAreOffered(ts: seq<Trip>, month: string, day: string)
    requires month in MonthChoices && day in DayChoices
    ensures month != "all" ==> forall t :: t in LoadData(ts, month, day) ==> t.month in MonthChoices[1..]
  {
  }
}
