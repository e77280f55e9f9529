/** Version comparison and the bind tables (im2d_api/src/im2d_impl.cpp, im2d_hardware.h). */
module Versions {
  import opened Common

  datatype Version = Version(major: nat, minor: nat, revision: nat)

  /** One row of a bind table: from library version `current` on, `minimum` is required. */
  datatype Entry = Entry(current: Version, minimum: Version)

  function Compare(a: Version, b: Version): int {
    if a.major > b.major then 1
    else if a.major == b.major && a.minor > b.minor then 1
    else if a.major == b.major && a.minor == b.minor && a.revision > b.revision then 1
    else if a.major == b.major && a.minor == b.minor && a.revision == b.revision then 0
    else -1
  }

  /** Versions compare by major, then minor, then revision. */
  lemma CompareIs(a: Version, b: Version)
    ensures Compare(a, b) == 0 <==> a == b
    ensures Compare(a, b) == 1 <==>
              || a.major > b.major || (a.major == b.major && a.minor > b.minor)
              || (a.major == b.major && a.minor == b.minor && a.revision > b.revision)
    ensures Compare(a, b) == -Compare(b, a)
  {
  }

  predicate AtMost(a: Version, b: Version) { Compare(b, a) >= 0 }

  function Currents(table: seq<Entry>): seq<Version> { seq(|table|, i requires 0 <= i < |table| => table[i].current) }
  function Minimums(table: seq<Entry>): seq<Version> { seq(|table|, i requires 0 <= i < |table| => table[i].minimum) }

  predicate Sorted(column: seq<Version>) {
    forall i, j | 0 <= i <= j < |column| :: AtMost(column[i], column[j])
  }

  /** The test made at index i of the backward search. */
  predicate Brackets(column: seq<Version>, v: Version, i: nat)
    requires i < |column|
  {
    AtMost(column[i], v) && (i == |column| - 1 || Compare(column[i + 1], v) > 0)
  }

  /** The last bracketing index below n, or -1. */
  function BracketBelow(column: seq<Version>, v: Version, n: nat): (index: int)
    requires n <= |column|
    ensures -1 <= index < n
    ensures index >= 0 ==> Brackets(column, v, index)
    ensures forall i | index < i < n :: !Brackets(column, v, i)
  {
    if n == 0 then -1 else if Brackets(column, v, n - 1) then n - 1 else BracketBelow(column, v, n - 1)
  }

  /** The search loop shared by the current and the minimum column. */
  method BracketIndex(v: Version, column: seq<Version>) returns (index: int)
    ensures index == BracketBelow(column, v, |column|)
  {
    index := -1;
    var i := |column| - 1;
    while i >= 0
      invariant -1 <= i < |column| && index == -1
      invariant BracketBelow(column, v, |column|) == BracketBelow(column, v, i + 1)
    {
      if AtMost(column[i], v) {
        if i == |column| - 1 {
          index := i;
          break;
        } else if Compare(column[i + 1], v) > 0 {
          index := i;
          break;
        }
      }
      i := i - 1;
    }
  }

  /** On a sorted column the search finds the greatest entry not above v, and fails exactly
      when every entry is above v. */
  lemma {:induction false} SearchFindsGreatest(column: seq<Version>, v: Version)
    requires Sorted(column)
    ensures var k := BracketBelow(column, v, |column|);
            && (k >= 0 ==> AtMost(column[k], v) && forall j | k < j < |column| :: !AtMost(column[j], v))
            && (k == -1 <==> forall j | 0 <= j < |column| :: !AtMost(column[j], v))
  {
    var k := BracketBelow(column, v, |column|);
    if exists j :: k < j < |column| && AtMost(column[j], v) {
      var j :| k < j < |column| && AtMost(column[j], v);
      NothingAbove(column, v, k, j);
    }
  }

  lemma {:induction false} NothingAbove(column: seq<Version>, v: Version, k: int, j: nat)
    requires Sorted(column) && -1 <= k < j < |column|
    requires forall i | k < i < |column| :: !Brackets(column, v, i)
    ensures !AtMost(column[j], v)
    decreases |column| - j
  {
    assert !Brackets(column, v, j);
    if j + 1 < |column| {
      NothingAbove(column, v, k, j + 1);
    }
  }

  function CheckRange(v: Version, table: seq<Entry>, index: nat): int
    requires index < |table|
  {
    if AtMost(table[index].minimum, v) then
      if index == |table| - 1 then 0
      else if Compare(v, table[index + 1].minimum) < 0 then 0 else 1
    else -1
  }

  datatype Outcome = CurrentUnknown | Within | Below | Above(least: nat) | MinimumUnknown

  /** rga_version_check, with the table row each report names. */
  function Check(current: Version, minimum: Version, table: seq<Entry>): Outcome {
    var k := BracketBelow(Currents(table), current, |table|);
    if k < 0 then CurrentUnknown
    else
      var range := CheckRange(minimum, table, k);
      if range == 0 then Within
      else if range == -1 then Below
      else
        var least := BracketBelow(Minimums(table), minimum, |table|);
        if least < 0 then MinimumUnknown else Above(least)
  }

  /** The return value of rga_version_check, which its callers switch on. */
  function Code(o: Outcome): int {
    match o
    case CurrentUnknown => ERROR_VERSION
    case Within => 0
    case Below => -1
    case Above(_) => 1
    case MinimumUnknown => 1
  }

  /** Looking up the least suitable row cannot fail, and names a later row than the library's own. */
  lemma MinimumIsAlwaysFound(current: Version, minimum: Version, table: seq<Entry>)
    requires Sorted(Minimums(table))
    ensures Check(current, minimum, table) != MinimumUnknown
    ensures Check(current, minimum, table).Above? ==>
              var least := Check(current, minimum, table).least;
              && BracketBelow(Currents(table), current, |table|) < least < |table|
              && AtMost(table[least].minimum, minimum)
              && forall j | least < j < |table| :: !AtMost(table[j].minimum, minimum)
  {
    SearchFindsGreatest(Minimums(table), minimum);
    var k := BracketBelow(Currents(table), current, |table|);
    if k >= 0 && CheckRange(minimum, table, k) == 1 {
      assert AtMost(Minimums(table)[k + 1], minimum);
      var least := BracketBelow(Minimums(table), minimum, |table|);
      forall j | least < j < |table| ensures !AtMost(table[j].minimum, minimum) {
        assert !AtMost(Minimums(table)[j], minimum);
      }
    }
  }

  /** Row k is the last whose library version is not above `current`. */
  predicate Own(table: seq<Entry>, current: Version, k: nat)
    requires k < |table|
  {
    AtMost(table[k].current, current) && forall j | k < j < |table| :: !AtMost(table[j].current, current)
  }

  lemma OwnRow(table: seq<Entry>, current: Version, k: nat)
    requires Sorted(Currents(table)) && k < |table| && Own(table, current, k)
    ensures BracketBelow(Currents(table), current, |table|) == k
  {
    SearchFindsGreatest(Currents(table), current);
    var own := BracketBelow(Currents(table), current, |table|);
    assert AtMost(Currents(table)[k], current);
    assert 0 <= own && Currents(table)[own] == table[own].current;
  }

  /** On sorted columns the check puts a version against the library's own row: too old for it, new
      enough for it but not for the next, or new enough for the next too. */
  lemma CheckMeans(current: Version, minimum: Version, table: seq<Entry>, k: nat)
    requires Sorted(Currents(table)) && Sorted(Minimums(table)) && k < |table|
    requires AtMost(table[k].current, current) && forall j | k < j < |table| :: !AtMost(table[j].current, current)
    ensures var o := Check(current, minimum, table);
            && (o == Below <==> !AtMost(table[k].minimum, minimum))
            && (o == Within <==> AtMost(table[k].minimum, minimum)
                                 && (k + 1 < |table| ==> !AtMost(table[k + 1].minimum, minimum)))
            && (o.Above? <==> k + 1 < |table| && AtMost(table[k + 1].minimum, minimum))
  {
    OwnRow(table, current, k);
    MinimumIsAlwaysFound(current, minimum, table);
    if k + 1 < |table| {
      NextAbove(table, k, minimum);
      CompareIs(minimum, table[k + 1].minimum);
    }
  }

  /** A library older than every row is not checked at all. */
  lemma CheckUnknownIff(current: Version, minimum: Version, table: seq<Entry>)
    requires Sorted(Currents(table))
    ensures Check(current, minimum, table) == CurrentUnknown <==>
              forall j | 0 <= j < |table| :: !AtMost(table[j].current, current)
  {
    SearchFindsGreatest(Currents(table), current);
    if forall j | 0 <= j < |table| :: !AtMost(table[j].current, current) {
      forall j | 0 <= j < |table| ensures !AtMost(Currents(table)[j], current) {
        assert !AtMost(table[j].current, current);
      }
    } else {
      var j :| 0 <= j < |table| && AtMost(table[j].current, current);
      assert AtMost(Currents(table)[j], current);
    }
  }

  lemma NextAbove(table: seq<Entry>, k: nat, minimum: Version)
    requires Sorted(Minimums(table)) && k + 1 < |table|
    ensures AtMost(table[k + 1].minimum, minimum) ==> AtMost(table[k].minimum, minimum)
  {
    assert AtMost(Minimums(table)[k], Minimums(table)[k + 1]);
  }

  /** The codes its callers switch on. */
  lemma CodeIs(o: Outcome)
    ensures Code(o) == 0 <==> o == Within
    ensures Code(o) == -1 <==> o == Below
    ensures Code(o) == 1 <==> o.Above? || o == MinimumUnknown
    ensures Code(o) == -5 <==> o == CurrentUnknown
  {
  }

  const API_VERSION := Version(1, 10, 5)

  const DriverTable: seq<Entry> := [
    Entry(Version(0, 0, 0), Version(0, 0, 0)),
    Entry(Version(1, 0, 3), Version(0, 0, 0)),
    Entry(Version(1, 6, 0), Version(1, 1, 5)),
    Entry(Version(1, 7, 2), Version(1, 2, 0)),
    Entry(Version(1, 7, 3), Version(1, 2, 4))]

  const HeaderTable: seq<Entry> := [
    Entry(Version(0, 0, 0), Version(0, 0, 0)),
    Entry(Version(1, 0, 3), Version(1, 0, 3)),
    Entry(Version(1, 4, 0), Version(1, 4, 0))]

  function CheckHeader(header: Version): int {
    if Code(Check(API_VERSION, header, HeaderTable)) == 0 then SUCCESS else ERROR_VERSION
  }

  function CheckDriver(driver: Version): int {
    var code := Code(Check(API_VERSION, driver, DriverTable));
    if code == 0 || code == -1 then SUCCESS else ERROR_VERSION
  }

  /** With the shipped tables no driver is refused, and a header exactly when older than 1.4.0. */
  lemma ShippedTables(v: Version)
    ensures CheckDriver(v) == SUCCESS
    ensures CheckHeader(v) == SUCCESS <==> AtMost(Version(1, 4, 0), v)
    ensures CheckHeader(v) == SUCCESS <==> v.major > 1 || (v.major == 1 && v.minor >= 4)
    ensures CheckHeader(v) == SUCCESS || CheckHeader(v) == ERROR_VERSION
  {
    assert Brackets(Currents(DriverTable), API_VERSION, 4);
    assert BracketBelow(Currents(DriverTable), API_VERSION, 5) == 4;
    assert Brackets(Currents(HeaderTable), API_VERSION, 2);
    assert BracketBelow(Currents(HeaderTable), API_VERSION, 3) == 2;
  }
}
