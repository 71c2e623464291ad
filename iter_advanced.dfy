/**
  `Unit` and `Series`: a number with an enabled flag, and an append-only list
  of units in which a unit can be disabled by its (Python) index.
 */
module IterAdvanced {
  import opened Builtins
  import opened IterMinimum

  /** The smallest unit: a number that starts enabled and can be disabled. */
  class Unit {
    const value: Value
    var enabled: bool

    /** `Unit(value)` once the type check has passed. */
    constructor (value: Value)
      requires IsNumber(value)
      ensures this.value == value && Truthy()
    {
      this.value := value;
      enabled := true;
    }

    /** `bool(unit)`. */
    predicate Truthy()
      reads this
    {
      enabled
    }

    /** `unit.disable()`: the unit becomes falsy; on a disabled unit nothing changes. */
    method Disable()
      modifies this
      ensures !Truthy()
      ensures old(!enabled) ==> unchanged(this)
    {
      enabled := false;
    }
  }

  /** `Unit(value)`: TypeError unless the value is an int or a float. */
  method MakeUnit(value: Value) returns (r: Result<Unit>)
    ensures r.Ok? <==> IsNumber(value)
    ensures r.Err? ==> r.error == TypeError
    ensures r.Ok? ==> fresh(r.value) && r.value.value == value && r.value.Truthy()
  {
    if !IsNumber(value) {
      return Err(TypeError);
    }
    var u := new Unit(value);
    return Ok(u);
  }

  /** An argument of `Series.add`, as `isinstance(unit, Unit)` sees it. */
  datatype UnitArg = AUnit(unit: Unit) | NotAUnit

  /** `[unit.value for unit in units if unit]`: the values of the enabled units, in order. */
  function EnabledValues(units: seq<Unit>): (r: seq<Value>)
    reads units
    ensures |r| <= |units|
    ensures forall v :: v in r <==> exists j :: 0 <= j < |units| && units[j].enabled && units[j].value == v
  {
    if units == [] then []
    else (if units[0].enabled then [units[0].value] else []) + EnabledValues(units[1..])
  }

  /** The enabled values of two lists of units one after the other are those of the first, then those of the second. */
  lemma {:induction false} EnabledValuesAppend(a: seq<Unit>, b: seq<Unit>)
    ensures EnabledValues(a + b) == EnabledValues(a) + EnabledValues(b)
  {
    if a == [] {
      assert a + b == b;
    } else {
      assert (a + b)[1..] == a[1..] + b;
      EnabledValuesAppend(a[1..], b);
    }
  }

  /** When every unit is enabled, the enabled values are all the values, in order. */
  lemma {:induction false} EnabledValuesAllEnabled(units: seq<Unit>)
    requires forall j :: 0 <= j < |units| ==> units[j].enabled
    ensures |EnabledValues(units)| == |units|
    ensures forall j :: 0 <= j < |units| ==> EnabledValues(units)[j] == units[j].value
  {
    if units != [] {
      EnabledValuesAllEnabled(units[1..]);
    }
  }

  /** A series of units, iterated in the order they were added. */
  class Series {
    var units: seq<Unit>

    /** `Series()`: no units. */
    constructor ()
      ensures units == []
    {
      units := [];
    }

    /** `iter(series)`: a `yield from` generator that yields the units as they stand, in insertion order. */
    function Iter(): (g: Generator<Unit>)
      reads this
      ensures g.Valid() && Drain(g) == units
    {
      DrainYieldsRest(Generator(units, 0));
      Generator(units, 0)
    }

    /**
      `series.add(unit)`: appends the unit at the end, leaving the earlier
      units where they were; anything but a Unit raises TypeError and leaves
      the series as it was.
     */
    method Add(arg: UnitArg) returns (r: Result<()>)
      modifies this
      ensures r.Ok? <==> arg.AUnit?
      ensures r.Err? ==> r.error == TypeError && units == old(units)
      ensures r.Ok? ==> units == old(units) + [arg.unit]
    {
      if !arg.AUnit? {
        return Err(TypeError);
      }
      units := units + [arg.unit];
      return Ok(());
    }

    /**
      `series.disable(num)`: disables the unit at Python index `num` (a
      negative index counts from the end) and no other; the list itself never
      changes. A non-integer raises TypeError and an index outside
      `[-len, len)` raises IndexError, both changing nothing.
     */
    method Disable(num: Value) returns (r: Result<()>)
      modifies units
      ensures units == old(units)
      ensures !num.Int? ==> r == Err(TypeError)
      ensures num.Int? && ResolveIndex(num.i, |units|).None? ==> r == Err(IndexError)
      ensures r.Ok? <==> num.Int? && ResolveIndex(num.i, |units|).Some?
      ensures r.Err? ==> forall j :: 0 <= j < |units| ==> units[j].enabled == old(units[j].enabled)
      ensures r.Ok? ==>
        var k := ResolveIndex(num.i, |units|).value;
        && !units[k].enabled
        && forall j :: 0 <= j < |units| && units[j] != units[k] ==>
             units[j].enabled == old(units[j].enabled)
    {
      if !num.Int? {
        return Err(TypeError);
      }
      var k := ResolveIndex(num.i, |units|);
      if k.None? {
        return Err(IndexError);
      }
      units[k.value].Disable();
      return Ok(());
    }
  }

  /** `series = Series()` followed by `series.add(Unit(i))` for `i` in `range(n)`. */
  method AddRange(n: nat) returns (series: Series)
    ensures fresh(series) && |series.units| == n
    ensures forall j :: 0 <= j < n ==> fresh(series.units[j])
    ensures forall j :: 0 <= j < n ==> series.units[j].value == Int(j) && series.units[j].enabled
    ensures forall j, k :: 0 <= j < k < n ==> series.units[j] != series.units[k]
    ensures EnabledValues(series.units) == seq(n, j => Int(j))
  {
    series := new Series();
    var i := 0;
    while i < n
      invariant 0 <= i <= n
      invariant |series.units| == i
      invariant forall j :: 0 <= j < i ==> series.units[j].value == Int(j) && series.units[j].enabled
      invariant forall j :: 0 <= j < i ==> fresh(series.units[j])
      invariant forall j, k :: 0 <= j < k < i ==> series.units[j] != series.units[k]
    {
      ghost var prev := series.units;
      var u := MakeUnit(Int(i));
      var _ := series.Add(AUnit(u.value));
      assert series.units[..i] == prev;
      i := i + 1;
    }
    EnabledValuesAllEnabled(series.units);
  }

  /** The enabled values of ten units numbered 0 to 9 of which 3 and 5 are disabled. */
  lemma EnabledValuesOfDemo(units: seq<Unit>)
    requires |units| == 10
    requires forall j :: 0 <= j < 10 ==> units[j].value == Int(j) && (units[j].enabled <==> j != 3 && j != 5)
    ensures EnabledValues(units) == [Int(0), Int(1), Int(2), Int(4), Int(6), Int(7), Int(8), Int(9)]
  {
    var low, three, four, five, high := units[0..3], units[3..4], units[4..5], units[5..6], units[6..10];
    assert EnabledValues(low) == [Int(0), Int(1), Int(2)] by {
      EnabledRun(units, 0, 3);
    }
    assert EnabledValues(four) == [Int(4)] by {
      EnabledRun(units, 4, 5);
    }
    assert EnabledValues(high) == [Int(6), Int(7), Int(8), Int(9)] by {
      EnabledRun(units, 6, 10);
    }
    DisabledOne(units, 3);
    DisabledOne(units, 5);
    assert units == low + three + four + five + high;
    EnabledValuesAppend(low, three);
    EnabledValuesAppend(low + three, four);
    EnabledValuesAppend(low + three + four, five);
    EnabledValuesAppend(low + three + four + five, high);
  }

  /** A run of enabled units numbered by their positions gives those numbers. */
  lemma EnabledRun(units: seq<Unit>, lo: nat, hi: nat)
    requires lo <= hi <= |units|
    requires forall j :: lo <= j < hi ==> units[j].value == Int(j) && units[j].enabled
    ensures EnabledValues(units[lo..hi]) == seq(hi - lo, j => Int(lo + j))
  {
    EnabledValuesAllEnabled(units[lo..hi]);
  }

  /** A single disabled unit gives nothing. */
  lemma DisabledOne(units: seq<Unit>, k: nat)
    requires k < |units| && !units[k].enabled
    ensures EnabledValues(units[k..k + 1]) == []
  {
    assert units[k..k + 1][1..] == [];
  }

  /**
    The script's demonstration: add units 0 to 9, list the enabled values,
    disable the units at indices 3 and 5, and list them again.
   */
  method Demo() returns (before: seq<Value>, after: seq<Value>)
    ensures before == [Int(0), Int(1), Int(2), Int(3), Int(4), Int(5), Int(6), Int(7), Int(8), Int(9)]
    ensures after == [Int(0), Int(1), Int(2), Int(4), Int(6), Int(7), Int(8), Int(9)]
  {
    var series := AddRange(10);
    before := EnabledValues(Drain(series.Iter()));
    var _ := series.Disable(Int(3));
    var _ := series.Disable(Int(5));
    EnabledValuesOfDemo(series.units);
    after := EnabledValues(Drain(series.Iter()));
  }
}
