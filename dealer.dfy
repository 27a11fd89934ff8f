/** Dealer.cs: the dealer's name rule, its file name, the process-wide dealer
    directory and the insertion of a vehicle into a dealer's work orders. */
module Dealers {
  import opened Results
  import opened Text
  import opened Dates
  import opened Vehicles
  import opened WorkOrders

  // ---------------------------------------------------------------------------
  // The name rule of the Name setter

  /** What the setter stores: word characters separated by single spaces, with
      no space at either end. */
  predicate IsCleanName(s: string) {
    Collapsed(s) && (s == [] || (s[0] != ' ' && s[|s| - 1] != ' '))
  }

  /** A slice of a collapsed string is collapsed. */
  lemma SliceCollapsed(t: string, a: nat, b: nat)
    requires a <= b <= |t| && Collapsed(t)
    ensures Collapsed(t[a..b])
  {
    var r := t[a..b];
    forall i | 0 <= i < |r| ensures IsWordChar(r[i]) || r[i] == ' ' {
      assert r[i] == t[a + i];
    }
    forall i, j | 0 <= i < j < |r| && j == i + 1 ensures r[i] != ' ' || r[j] != ' ' {
      assert r[i] == t[a + i] && r[j] == t[a + j];
    }
  }

  /** Trimming a collapsed string gives a clean name with the same word characters. */
  lemma TrimCollapsed(t: string)
    requires Collapsed(t)
    ensures IsCleanName(Trim(t))
    ensures WordChars(Trim(t)) == WordChars(t)
  {
    var a, b := TrimIsSlice(t);
    SliceCollapsed(t, a, b);
    WordCharsOfSlice(t, a, b);
  }

  /** Regex.Replace(value, @"\W+", " ").Trim(): the cleaned name keeps every
      word character of the input, in order, and nothing but single spaces
      between them. */
  function CleanName(s: string): (r: string)
    ensures IsCleanName(r)
    ensures WordChars(r) == WordChars(s)
  {
    var t := ReplaceNonWordRuns(s);
    ReplaceKeepsWordChars(s);
    TrimCollapsed(t);
    Trim(t)
  }

  /** A run of word characters, then a run of separators, then more text
      starting with a word character: the run is kept, the separators become
      one space, and the rest is cleaned on its own. */
  lemma CleanNameOfRuns(w: string, n: string, rest: string)
    requires w != [] && forall i :: 0 <= i < |w| ==> IsWordChar(w[i])
    requires n != [] && forall i :: 0 <= i < |n| ==> !IsWordChar(n[i])
    requires rest != [] && IsWordChar(rest[0])
    ensures CleanName(w + n + rest) == w + " " + CleanName(rest)
  {
    var x := ReplaceNonWordRuns(rest);
    var p := w + " ";
    assert ReplaceNonWordRuns(w + n + rest) == p + x by {
      ReplaceWordPrefix(w, n + rest);
      ReplaceNonWordPrefix(n, rest);
      Assoc(w, n, rest);
      Assoc(w, " ", x);
    }
    assert !IsWhiteSpace(x[0]) by {
      assert IsWordChar(x[0]);
    }
    assert !IsWhiteSpace(p[0]) by {
      assert p[0] == w[0];
    }
    TrimAfterPrefix(p, x);
  }

  /** A clean name is its own cleaning. */
  lemma CleanNameOfCleanName(c: string)
    requires IsCleanName(c)
    ensures CleanName(c) == c
  {
    CollapsedIsFixedPoint(c);
  }

  /** Cleaning is idempotent. */
  lemma CleanNameIdempotent(s: string)
    ensures CleanName(CleanName(s)) == CleanName(s)
  {
    CleanNameOfCleanName(CleanName(s));
  }

  /** An input with no word character cleans to the empty name. */
  lemma CleanNameOfNoWordChars(s: string)
    requires forall i :: 0 <= i < |s| ==> !IsWordChar(s[i])
    ensures CleanName(s) == ""
  {
    WordCharsOfNonWord(s);
    CleanNameHasWordChar(CleanName(s));
  }

  /** A clean name that is not empty starts with a word character. */
  lemma CleanNameHasWordChar(c: string)
    requires IsCleanName(c)
    ensures c != [] ==> WordChars(c) != []
  {
    if c != [] {
      assert WordChars(c) == [c[0]] + WordChars(c[1..]);
    }
  }

  /** An example of the name rule: " A&B! " is stored as "A B". */
  lemma CleanNameExample()
    ensures CleanName(" A&B! ") == "A B"
  {
    ReplaceExample();
    TrimExample();
  }

  lemma ReplaceExample()
    ensures ReplaceNonWordRuns(" A&B! ") == " A B "
  {
    ReplaceTailExample();
    ReplaceWordPrefix("A", "&B! ");
    assert "A" + "&B! " == "A&B! ";
    ReplaceNonWordPrefix(" ", "A&B! ");
    assert " " + "A&B! " == " A&B! ";
  }

  lemma ReplaceTailExample()
    ensures ReplaceNonWordRuns("&B! ") == " B "
  {
    ReplaceNonWordPrefix("! ", "");
    assert "! " + "" == "! ";
    ReplaceWordPrefix("B", "! ");
    assert "B" + "! " == "B! ";
    ReplaceNonWordPrefix("&", "B! ");
    assert "&" + "B! " == "&B! ";
  }

  lemma TrimExample()
    ensures Trim(" A B ") == "A B"
  {
    var t := " A B ";
    assert t[0] == ' ' && t[1] == 'A' && t[3] == 'B' && t[4] == ' ';
    assert NextNonWhiteSpace(t, 1) == 1;
    assert NextNonWhiteSpace(t, 0) == 1;
    assert WhiteSpaceTailStart(t, 4) == 4;
    assert WhiteSpaceTailStart(t, 5) == 4;
    assert t[1..4] == "A B";
  }


  /** The FileName property: spaces become underscores, then the name is lower-cased. */
  function FileNameOf(name: string): (r: string)
    ensures |r| == |name|
    ensures ' ' !in r
    ensures forall i :: 0 <= i < |r| ==> r[i] == LowerChar(if name[i] == ' ' then '_' else name[i])
  {
    ToLower(ReplaceChar(name, ' ', '_'))
  }

  /** The file name of a clean name is made of word characters with no upper-case letter. */
  lemma FileNameOfCleanName(name: string)
    requires IsCleanName(name)
    ensures forall i :: 0 <= i < |name| ==>
      IsWordChar(FileNameOf(name)[i]) && !('A' <= FileNameOf(name)[i] <= 'Z')
  {
  }

  // ---------------------------------------------------------------------------
  // Dealer and the dealer directory

  class Dealer {
    /** `_name`; the empty string stands for the null of a dealer not yet named. */
    var name: string

    /** WorkOrders: calendar day to that day's vehicles. */
    var workOrders: Book

    constructor ()
      ensures name == "" && workOrders == map[]
    {
      name := "";
      workOrders := map[];
    }

    /** The FileName property: `FileNameOf` the dealer's current name.  For a
        clean name it is lower-case word characters only. */
    function FileName(): (r: string)
      reads this
      ensures r == FileNameOf(name)
      ensures |r| == |name| && ' ' !in r
      ensures IsCleanName(name) ==> forall i :: 0 <= i < |r| ==> IsWordChar(r[i]) && !('A' <= r[i] <= 'Z')
    {
      FileNameOf(name)
    }

    /** IComparable<Dealer>: dealers are ordered by name. */
    function CompareTo(other: Dealer): (r: int)
      reads this, other
      ensures r == CompareOrdinal(name, other.name)
      ensures -1 <= r <= 1
      ensures r == 0 <==> name == other.name
    {
      CompareOrdinal(name, other.name)
    }

    /** The Name setter.  On success it returns the old configuration file
        (FileName + ".json") that the setter deletes when the dealer had a name. */
    method SetName(dir: Directory, value: Option<string>) returns (r: Result<Option<string>>)
      modifies this
      ensures workOrders == old(workOrders)
      ensures value.None? || value.value == "" ==> r == Err(NameMissing) && name == old(name)
      ensures value.Some? && value.value != "" ==>
        var clean := CleanName(value.value);
        var k := FirstNamed(old(dir.Names()), clean);
        if k.Some? && dir.dealers[k.value] != this then
          r == Err(DuplicateName(clean)) && name == old(name)
        else
          && r == Ok(if old(name) == "" then None else Some(FileNameOf(old(name)) + ".json"))
          && name == clean
      ensures old(dir.Valid()) ==> dir.Valid()
    {
      if value.None? || value.value == "" {
        return Err(NameMissing);
      }
      r := Assign(dir, CleanName(value.value));
    }

    /** The setter after cleaning: refuse a name another dealer of the directory
        holds, otherwise store it. */
    method Assign(dir: Directory, clean: string) returns (r: Result<Option<string>>)
      requires IsCleanName(clean)
      modifies this
      ensures workOrders == old(workOrders)
      ensures var k := FirstNamed(old(dir.Names()), clean);
        if k.Some? && dir.dealers[k.value] != this then
          r == Err(DuplicateName(clean)) && name == old(name)
        else
          && r == Ok(if old(name) == "" then None else Some(FileNameOf(old(name)) + ".json"))
          && name == clean
      ensures old(dir.Valid()) ==> dir.Valid()
    {
      var k := dir.Find(clean);
      if k.Some? && dir.dealers[k.value] != this {
        return Err(DuplicateName(clean));
      }
      r := Ok(if name == "" then None else Some(FileName() + ".json"));
      assert r == Ok(if old(name) == "" then None else Some(FileNameOf(old(name)) + ".json"));
      Rename(dir, clean, k);
    }

    /** Stores a clean name that no other dealer of the directory holds. */
    method Rename(dir: Directory, clean: string, k: Option<nat>)
      requires IsCleanName(clean) && k == FirstNamed(dir.Names(), clean)
      requires k.Some? ==> dir.dealers[k.value] == this
      modifies this
      ensures name == clean && workOrders == old(workOrders)
      ensures old(dir.Valid()) ==> dir.Valid()
    {
      ghost var names0, books0 := dir.Names(), dir.Books();
      name := clean;
      if old(dir.Valid()) {
        if this in dir.dealers {
          var i :| 0 <= i < |dir.dealers| && dir.dealers[i] == this;
          forall j | 0 <= j < |dir.dealers| && j != i
            ensures dir.dealers[j].name == names0[j] && dir.dealers[j].workOrders == books0[j]
          {
            UniqueAt(names0, i, j);
          }
          SameNames(dir, names0[i := clean]);
          SameBooks(dir, books0);
          assert k.Some? ==> names0[k.value] == names0[i];
          RenameKeepsDirectoryValid(names0, books0, i, clean);
        } else {
          SameNames(dir, names0);
          SameBooks(dir, books0);
        }
      }
    }

    /** The dictionary update of AddVehicleToWorkOrder on this dealer. */
    method AddToWorkOrder(date: DateTime, v: Vehicle)
      modifies this
      ensures name == old(name)
      ensures workOrders == AddToBook(old(workOrders), date, v)
    {
      var cleanDate := date.Truncate();
      if cleanDate !in workOrders {
        workOrders := workOrders[cleanDate := []];
      }
      workOrders := workOrders[cleanDate := Add(workOrders[cleanDate], v)];
    }
  }

  lemma UniqueAt(names: seq<string>, i: nat, j: nat)
    requires Unique(names) && i < |names| && j < |names| && i != j
    ensures names[i] != names[j]
  {
  }

  /** In a valid directory, looking up the cleaning of a dealer's own name finds that dealer. */
  lemma RenameToOwnName(names: seq<string>, books: seq<Book>, i: nat)
    requires DirectoryValid(names, books) && i < |names|
    ensures FirstNamed(names, CleanName(names[i])) == Some(i)
  {
    CleanNameOfCleanName(names[i]);
  }

  lemma SameNames(dir: Directory, names: seq<string>)
    requires |names| == |dir.dealers|
    requires forall j :: 0 <= j < |names| ==> dir.dealers[j].name == names[j]
    ensures dir.Names() == names
  {
  }

  lemma SameBooks(dir: Directory, books: seq<Book>)
    requires |books| == |dir.dealers|
    requires forall j :: 0 <= j < |books| ==> dir.dealers[j].workOrders == books[j]
    ensures dir.Books() == books
  {
  }

  /** Renaming entry `i` to a clean name keeps the directory valid when the new
      name is not taken or is the entry's own. */
  lemma RenameKeepsDirectoryValid(names: seq<string>, books: seq<Book>, i: nat, name: string)
    requires DirectoryValid(names, books) && i < |names| && IsCleanName(name)
    requires name !in names || names[i] == name
    ensures DirectoryValid(names[i := name], books)
  {
  }

  /** The index of the first name equal to `name`: the linear scan of
      DealerDirectory.FirstOrDefault(d => d.Name == name). */
  function FirstNamed(names: seq<string>, name: string): (r: Option<nat>)
    ensures r.Some? ==> r.value < |names| && names[r.value] == name
    ensures r.Some? ==> forall j :: 0 <= j < r.value ==> names[j] != name
    ensures r.None? <==> name !in names
  {
    if names == [] then None
    else if names[0] == name then Some(0)
    else match FirstNamed(names[1..], name)
      case None => assert names == [names[0]] + names[1..]; None
      case Some(k) => Some(k + 1)
  }

  /** The process-wide DealerDirectory. */
  class Directory {
    var dealers: seq<Dealer>

    constructor ()
      ensures dealers == []
    {
      dealers := [];
    }

    ghost function Names(): (ns: seq<string>)
      reads this, dealers
      ensures |ns| == |dealers|
      ensures forall i :: 0 <= i < |dealers| ==> ns[i] == dealers[i].name
    {
      seq(|dealers|, i reads this, dealers requires 0 <= i < |dealers| => dealers[i].name)
    }

    ghost function Books(): (bs: seq<Book>)
      reads this, dealers
      ensures |bs| == |dealers|
      ensures forall i :: 0 <= i < |dealers| ==> bs[i] == dealers[i].workOrders
    {
      seq(|dealers|, i reads this, dealers requires 0 <= i < |dealers| => dealers[i].workOrders)
    }

    /** No two dealers share a name, every name is clean, every work-order book is valid. */
    ghost predicate Valid()
      reads this, dealers
    {
      DirectoryValid(Names(), Books())
    }

    /** DealerDirectory.Add of a dealer whose clean name no dealer holds yet. */
    method Add(d: Dealer)
      requires Valid() && d !in dealers
      requires IsCleanName(d.name) && d.name !in Names() && d.workOrders == map[]
      modifies this
      ensures dealers == old(dealers) + [d]
      ensures Valid()
    {
      ghost var names, books := Names(), Books();
      dealers := dealers + [d];
      SameNames(this, names + [d.name]);
      SameBooks(this, books + [map[]]);
    }

    /** The dealer lookup of the Name setter and of AddVehicleToWorkOrder. */
    method Find(name: string) returns (r: Option<nat>)
      ensures r == FirstNamed(Names(), name)
    {
      var i := 0;
      while i < |dealers|
        invariant 0 <= i <= |dealers|
        invariant forall j :: 0 <= j < i ==> dealers[j].name != name
      {
        if dealers[i].name == name {
          return Some(i);
        }
        i := i + 1;
      }
      return None;
    }
  }

  /** The constructor Dealer(name): set the name, then add the dealer to the directory. */
  method NewDealer(dir: Directory, value: Option<string>) returns (r: Result<Dealer>)
    requires dir.Valid()
    modifies dir
    ensures dir.Valid()
    ensures value.None? || value == Some("") ==> r == Err(NameMissing)
    ensures value.Some? && value.value != "" ==>
      (r.Err? <==> CleanName(value.value) in old(dir.Names()))
      && (r.Err? ==> r.error == DuplicateName(CleanName(value.value)))
    ensures r.Err? ==> dir.dealers == old(dir.dealers)
    ensures r.Ok? ==>
      && fresh(r.value)
      && dir.dealers == old(dir.dealers) + [r.value]
      && r.value.name == CleanName(value.value)
      && r.value.workOrders == map[]
  {
    if value.None? || value.value == "" {
      return Err(NameMissing);
    }
    r := NewNamed(dir, CleanName(value.value));
  }

  /** The constructor once the name is cleaned. */
  method NewNamed(dir: Directory, clean: string) returns (r: Result<Dealer>)
    requires dir.Valid() && IsCleanName(clean)
    modifies dir
    ensures dir.Valid()
    ensures r.Err? <==> clean in old(dir.Names())
    ensures r.Err? ==> r.error == DuplicateName(clean) && dir.dealers == old(dir.dealers)
    ensures r.Ok? ==>
      && fresh(r.value)
      && dir.dealers == old(dir.dealers) + [r.value]
      && r.value.name == clean
      && r.value.workOrders == map[]
  {
    var d := new Dealer();
    var s := d.Assign(dir, clean);
    if s.Err? {
      return Err(s.error);
    }
    dir.Add(d);
    return Ok(d);
  }

  // ---------------------------------------------------------------------------
  // AddVehicleToWorkOrder

  /** The work orders of every dealer of the directory after an operation, and
      the exception it raised, if any. */
  datatype Run = Run(books: seq<Book>, failure: Option<Error>)

  /** AddVehicleToWorkOrder over the directory's names and work orders. */
  function AddVehicle(names: seq<string>, books: seq<Book>, dealerName: string, date: DateTime, v: Vehicle): (r: Run)
    requires |names| == |books|
    ensures |r.books| == |books|
    ensures r.failure.Some? <==> dealerName !in names
    ensures r.failure.Some? ==> r == Run(books, Some(DealerNotFound(dealerName)))
    ensures forall j :: 0 <= j < |books| && names[j] != dealerName ==> r.books[j] == books[j]
    ensures forall j :: FirstNamed(names, dealerName) == Some(j) ==> r.books[j] == AddToBook(books[j], date, v)
  {
    match FirstNamed(names, dealerName)
    case None => Run(books, Some(DealerNotFound(dealerName)))
    case Some(k) => Run(books[k := AddToBook(books[k], date, v)], None)
  }

  /** The directory invariant over its names and work orders. */
  predicate DirectoryValid(names: seq<string>, books: seq<Book>) {
    |names| == |books| && Unique(names) && AllClean(names) && AllBooksValid(books)
  }

  predicate AllClean(names: seq<string>) {
    forall i :: 0 <= i < |names| ==> IsCleanName(names[i])
  }

  predicate Unique(names: seq<string>) {
    forall i, j :: 0 <= i < j < |names| ==> names[i] != names[j]
  }

  predicate AllBooksValid(books: seq<Book>) {
    forall j :: 0 <= j < |books| ==> BookValid(books[j])
  }

  /** Adding a vehicle keeps every day of every dealer in order. */
  lemma AddVehicleValid(names: seq<string>, books: seq<Book>, dealerName: string, date: DateTime, v: Vehicle)
    requires |names| == |books| && AllBooksValid(books)
    ensures AllBooksValid(AddVehicle(names, books, dealerName, date, v).books)
  {
    var k := FirstNamed(names, dealerName);
    if k.Some? {
      AddToBookValid(books[k.value], date, v);
    }
  }

  /** With unique names, the one dealer of that name gets the vehicle and no other dealer changes. */
  lemma AddVehicleTouchesOneDealer(names: seq<string>, books: seq<Book>, dealerName: string, date: DateTime, v: Vehicle, k: nat)
    requires |names| == |books| && Unique(names)
    requires k < |names| && names[k] == dealerName
    ensures AddVehicle(names, books, dealerName, date, v) == Run(books[k := AddToBook(books[k], date, v)], None)
  {
  }

  /** AddVehicleToWorkOrder: look the dealer up by exact name, truncate the
      timestamp to its day, create that day's work order if missing and add
      the vehicle to it. */
  method AddVehicleToWorkOrder(dir: Directory, dealerName: string, date: DateTime, v: Vehicle)
    returns (err: Option<Error>)
    requires dir.Valid()
    modifies dir.dealers
    ensures dir.dealers == old(dir.dealers)
    ensures dir.Valid()
    ensures dir.Names() == old(dir.Names())
    ensures Run(dir.Books(), err) == AddVehicle(old(dir.Names()), old(dir.Books()), dealerName, date, v)
  {
    ghost var names, books := dir.Names(), dir.Books();
    var k := dir.Find(dealerName);
    if k.None? {
      return Some(DealerNotFound(dealerName));
    }
    var dealer := dir.dealers[k.value];
    dealer.AddToWorkOrder(date, v);
    forall j | 0 <= j < |dir.dealers| && j != k.value
      ensures dir.dealers[j].name == names[j] && dir.dealers[j].workOrders == books[j]
    {
      UniqueAt(names, k.value, j);
    }
    SameNames(dir, names);
    SameBooks(dir, books[k.value := dealer.workOrders]);
    AddVehicleValid(names, books, dealerName, date, v);
    return None;
  }
}
