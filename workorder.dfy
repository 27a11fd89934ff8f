/** Work orders: for one dealer, a map from calendar day to the vehicles
    serviced that day.  A WorkOrder is taken to hold its vehicles in a
    `SortedSet<Vehicle>` (the WorkOrder class is not part of this model);
    the day is kept here as a sequence in ascending order.  The model's set
    is an idealised one: a vehicle is refused when it compares 0 with ANY
    vehicle of the day, whereas a search tree compares it only with the
    vehicles on one search path, which differs because comparing 0 is not
    transitive (`Vehicles.CompareZeroNotTransitive`). */
module WorkOrders {
  import opened Results
  import opened Dates
  import opened Vehicles

  /** The vehicles of one day's work order, in ascending `Compare` order. */
  type Day = seq<Vehicle>

  /** A dealer's WorkOrders dictionary. */
  type Book = map<DateTime, Day>

  /** Some vehicle already on the day compares 0 with `v`. */
  predicate Collides(day: Day, v: Vehicle) {
    exists i :: 0 <= i < |day| && Compare(v, day[i]) == 0
  }

  /** Strictly ascending: the order a SortedSet enumerates, with no two elements comparing 0. */
  predicate Ordered(day: Day) {
    forall i, j :: 0 <= i < j < |day| ==> Compare(day[i], day[j]) < 0
  }

  /** Puts `v` before the first vehicle it compares below. */
  function Insert(day: Day, v: Vehicle): (r: Day)
    ensures multiset(r) == multiset(day) + multiset{v}
  {
    if day == [] then [v]
    else if Compare(v, day[0]) < 0 then [v] + day
    else
      assert day == [day[0]] + day[1..];
      [day[0]] + Insert(day[1..], v)
  }

  /** The model's SortedSet.Add: a vehicle that compares 0 with any vehicle
      already there is silently ignored; otherwise it is inserted in order. */
  function Add(day: Day, v: Vehicle): (r: Day)
    ensures Collides(day, v) ==> r == day
    ensures !Collides(day, v) ==> multiset(r) == multiset(day) + multiset{v}
    ensures v in r || Collides(day, v)
  {
    if Collides(day, v) then day
    else
      var r := Insert(day, v);
      assert v in multiset(r);
      r
  }

  /** A vehicle below every vehicle of an ordered day may go in front of it. */
  lemma PrependOrdered(h: Vehicle, rest: Day)
    requires Ordered(rest)
    requires forall x :: x in rest ==> Compare(h, x) < 0
    ensures Ordered([h] + rest)
  {
    var r := [h] + rest;
    forall i, j | 0 <= i < j < |r| ensures Compare(r[i], r[j]) < 0 {
      assert r[j] == rest[j - 1];
      if i > 0 {
        assert r[i] == rest[i - 1];
      }
    }
  }

  lemma OrderedTail(day: Day)
    requires Ordered(day) && day != []
    ensures Ordered(day[1..])
    ensures forall x :: x in day[1..] ==> Compare(day[0], x) < 0
  {
    var t := day[1..];
    forall i, j | 0 <= i < j < |t| ensures Compare(t[i], t[j]) < 0 {
      assert t[i] == day[i + 1] && t[j] == day[j + 1];
    }
    forall x | x in t ensures Compare(day[0], x) < 0 {
      var k :| 0 <= k < |t| && t[k] == x;
      assert day[k + 1] == x;
    }
  }

  /** Insertion keeps the day in order. */
  lemma {:induction false} InsertOrdered(day: Day, v: Vehicle)
    requires Ordered(day) && !Collides(day, v)
    ensures Ordered(Insert(day, v))
    decreases |day|
  {
    if day != [] {
      var h, t := day[0], day[1..];
      OrderedTail(day);
      assert Compare(v, h) != 0;
      if Compare(v, h) < 0 {
        forall x | x in day ensures Compare(v, x) < 0 {
          if x != h {
            assert x in t;
            var k :| 0 <= k < |day| && day[k] == x;
            assert Compare(v, x) != 0;
            CompareTransitive(v, h, x);
          }
        }
        PrependOrdered(v, day);
      } else {
        assert !Collides(t, v) by {
          forall i | 0 <= i < |t| ensures Compare(v, t[i]) != 0 {
            assert t[i] == day[i + 1];
          }
        }
        InsertOrdered(t, v);
        var rest := Insert(t, v);
        CompareAntisymmetric(v, h);
        forall x | x in rest ensures Compare(h, x) < 0 {
          assert x in multiset(rest);
          if x != v {
            assert x in multiset(t);
          }
        }
        PrependOrdered(h, rest);
      }
    }
  }

  /** Adding to a day in order leaves it in order. */
  lemma AddOrdered(day: Day, v: Vehicle)
    requires Ordered(day)
    ensures Ordered(Add(day, v))
  {
    if !Collides(day, v) {
      InsertOrdered(day, v);
    }
  }

  /** A day in order never lists one VIN or one stock number twice, so in the
      model no vehicle is billed twice on one day. */
  lemma OrderedHasDistinctVins(day: Day)
    requires Ordered(day)
    ensures forall i, j :: 0 <= i < j < |day| ==> day[i].vin != day[j].vin && day[i].stock != day[j].stock
  {
  }

  /** The vehicles on `key`, or none when the dictionary has no work order for it. */
  function DayOf(book: Book, key: DateTime): Day {
    if key in book then book[key] else []
  }

  /** The dictionary part of AddVehicleToWorkOrder: truncate the timestamp,
      create the day's work order if missing, and add the vehicle to it. */
  function AddToBook(book: Book, date: DateTime, v: Vehicle): (r: Book)
    ensures r.Keys == book.Keys + {date.Truncate()}
    ensures forall k :: k in book && k != date.Truncate() ==> r[k] == book[k]
    ensures Collides(DayOf(book, date.Truncate()), v) ==> r == book
    ensures !Collides(DayOf(book, date.Truncate()), v) ==>
      multiset(r[date.Truncate()]) == multiset(DayOf(book, date.Truncate())) + multiset{v}
  {
    var key := date.Truncate();
    book[key := Add(DayOf(book, key), v)]
  }

  /** Every key is a calendar day and every day's vehicles are in order. */
  predicate BookValid(book: Book) {
    forall k :: k in book ==> k.second == 0 && Ordered(book[k])
  }

  lemma AddToBookValid(book: Book, date: DateTime, v: Vehicle)
    requires BookValid(book)
    ensures BookValid(AddToBook(book, date, v))
  {
    AddOrdered(DayOf(book, date.Truncate()), v);
  }

  /** Adding the same vehicle again on the same day changes nothing. */
  lemma AddToBookIdempotent(book: Book, date: DateTime, v: Vehicle)
    ensures AddToBook(AddToBook(book, date, v), date, v) == AddToBook(book, date, v)
  {
    var key := date.Truncate();
    var after := AddToBook(book, date, v);
    var day := after[key];
    if v in day {
      var i :| 0 <= i < |day| && day[i] == v;
      assert Compare(v, day[i]) == 0;
    } else {
      var old_day := DayOf(book, key);
      var i :| 0 <= i < |old_day| && Compare(v, old_day[i]) == 0;
      assert day == old_day;
      assert Compare(v, day[i]) == 0;
    }
    assert Collides(DayOf(after, key), v);
  }

  /** Once a vehicle has been added for a day, another vehicle with its VIN on
      that day (at any time of day) is ignored. */
  lemma AddSameVinAgain(book: Book, t1: DateTime, t2: DateTime, v: Vehicle, w: Vehicle)
    requires t1.SameDay(t2) && v.vin == w.vin
    requires !Collides(DayOf(book, t1.Truncate()), v)
    ensures AddToBook(AddToBook(book, t1, v), t2, w) == AddToBook(book, t1, v)
  {
    var after := AddToBook(book, t1, v);
    var day := after[t1.Truncate()];
    assert v in multiset(day);
    var i :| 0 <= i < |day| && day[i] == v;
    assert Compare(w, day[i]) == 0;
    assert t2.Truncate() == t1.Truncate();
    assert Collides(DayOf(after, t2.Truncate()), w);
  }

  /** Two vehicles that do not compare 0, added on the same day to a day where
      neither collides, are both listed afterwards. */
  lemma AddTwoDistinct(book: Book, t1: DateTime, t2: DateTime, v: Vehicle, w: Vehicle)
    requires t1.SameDay(t2) && Compare(v, w) != 0
    requires !Collides(DayOf(book, t1.Truncate()), v) && !Collides(DayOf(book, t1.Truncate()), w)
    ensures var after := AddToBook(AddToBook(book, t1, v), t2, w);
      v in after[t1.Truncate()] && w in after[t1.Truncate()]
  {
    var key := t1.Truncate();
    assert t2.Truncate() == key;
    var day0 := DayOf(book, key);
    var day1 := AddToBook(book, t1, v)[key];
    assert multiset(day1) == multiset(day0) + multiset{v};
    assert !Collides(day1, w) by {
      forall i | 0 <= i < |day1| ensures Compare(w, day1[i]) != 0 {
        assert day1[i] in multiset(day1);
        if day1[i] != v {
          assert day1[i] in multiset(day0);
          var k :| 0 <= k < |day0| && day0[k] == day1[i];
        } else {
          CompareAntisymmetric(v, w);
        }
      }
    }
    var day2 := AddToBook(AddToBook(book, t1, v), t2, w)[key];
    assert multiset(day2) == multiset(day1) + multiset{w};
    assert v in multiset(day2);
    assert w in multiset(day2);
  }
}
