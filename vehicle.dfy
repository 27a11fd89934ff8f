/** Vehicle.cs: one serviced car, immutable once built, and the comparison
    that decides which vehicles a work order treats as the same. */
module Vehicles {
  import opened Results
  import opened Text

  /** C# `short`, the type of the model year. */
  newtype int16 = x: int | -0x8000 <= x < 0x8000

  /** C# `uint`, the type of the optional reference number. */
  newtype uint32 = x: int | 0 <= x < 0x1_0000_0000

  datatype Condition = NEW | USED

  /** The seven constructor arguments; the destructors `vin`, `stock`, `refno`
      and `cond` are the getters Vin, Stock, Refno and Cond.  A datatype value
      never changes, as no field of the C# class is written after construction. */
  datatype Vehicle = Vehicle(
    vin: string,
    stock: string,
    cond: Condition,
    year: int16,
    make: string,
    model: string,
    refno: Option<uint32>)
  {
    /** "{year} {make} {model}": the model year as printed, from which it
        reads back, then the make and the model, each after one space. */
    function Description(): (r: string)
      ensures var y := IntToString(year as int);
        && |r| == |y| + 1 + |make| + 1 + |model|
        && r[..|y|] == y && r[|y|] == ' '
        && ParseInt(r[..|y|]) == Some(year as int)
        && r[|y| + 1..|y| + 1 + |make|] == make
        && r[|y| + 1 + |make|] == ' '
        && r[|r| - |model|..] == model
    {
      IntToStringRoundTrip(year as int);
      IntToString(year as int) + " " + make + " " + model
    }

    /** "{stock} ({Description})": the stock number, then the description in parentheses. */
    function ToString(): (r: string)
      ensures var d := Description();
        && |r| == |stock| + |d| + 3
        && r[..|stock|] == stock
        && r[|stock|..|stock| + 2] == " ("
        && r[|stock| + 2..|r| - 1] == d
        && r[|r| - 1] == ')'
    {
      stock + " (" + Description() + ")"
    }

    /** IComparable.CompareTo: a null argument is an error, otherwise `Compare`. */
    function CompareTo(other: Option<Vehicle>): (r: Result<int>)
      ensures other.None? <==> r == Err(NullArgument)
      ensures other.Some? ==> r == Ok(Compare(this, other.value))
    {
      if other.None? then Err(NullArgument) else Ok(Compare(this, other.value))
    }
  }

  /** Equal VINs compare as 0; otherwise the stock numbers decide. */
  function Compare(a: Vehicle, b: Vehicle): (r: int)
    ensures -1 <= r <= 1
    ensures r == 0 <==> a.vin == b.vin || a.stock == b.stock
  {
    if a.vin == b.vin then 0 else CompareOrdinal(a.stock, b.stock)
  }

  /** Vehicles with the same VIN are the same vehicle, whatever else differs. */
  lemma SameVinCompareEqual(a: Vehicle, b: Vehicle)
    requires a.vin == b.vin
    ensures Compare(a, b) == 0 && Compare(b, a) == 0
  {
  }

  /** Vehicles with different VINs are ordered by their stock numbers alone. */
  lemma DifferentVinsOrderByStock(a: Vehicle, b: Vehicle)
    requires a.vin != b.vin
    ensures Compare(a, b) == CompareOrdinal(a.stock, b.stock)
  {
  }

  /** sign(Compare(a, b)) = -sign(Compare(b, a)). */
  lemma CompareAntisymmetric(a: Vehicle, b: Vehicle)
    ensures Compare(a, b) == -Compare(b, a)
  {
    CompareOrdinalAntisymmetric(a.stock, b.stock);
  }

  /** Among vehicles that do not compare 0, the order is transitive. */
  lemma CompareTransitive(a: Vehicle, b: Vehicle, c: Vehicle)
    requires Compare(a, b) < 0 && Compare(b, c) < 0
    requires Compare(a, c) != 0
    ensures Compare(a, c) < 0
  {
    CompareOrdinalTransitive(a.stock, b.stock, c.stock);
  }

  /** "Compares 0" is not transitive: a shares a VIN with b, b a stock number
      with c, yet a and c differ. */
  lemma CompareZeroNotTransitive()
    ensures exists a: Vehicle, b: Vehicle, c: Vehicle ::
      Compare(a, b) == 0 && Compare(b, c) == 0 && Compare(a, c) != 0
  {
    var a := Vehicle("V1", "S1", USED, 2019, "Ford", "F-150", None);
    var b := Vehicle("V1", "S2", USED, 2019, "Ford", "F-150", None);
    var c := Vehicle("V2", "S2", NEW, 2020, "Ford", "Edge", None);
    assert a.stock != c.stock;
    assert Compare(a, b) == 0 && Compare(b, c) == 0 && Compare(a, c) != 0;
  }
}
