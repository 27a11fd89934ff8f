/** Failure values of the dealer core and the wrappers that carry them.
    Every exception the modelled C# code can raise becomes one `Error` case. */
module Results {

  datatype Option<+T> = None | Some(value: T)

  /** The exceptions of Dealer.cs and Vehicle.cs, by what raises them. */
  datatype Error =
    | NameMissing                  // ArgumentNullException("Name"): null or empty dealer name
    | DuplicateName(name: string)  // ArgumentException: another dealer already has the cleaned name
    | DealerNotFound(name: string) // InvalidOperationException: no dealer with that name
    | InvalidFileType              // InvalidDataException: extension is not .csv
    | UnsupportedSource            // InvalidDataException: column count names no known vendor
    | MissingColumn(column: string)// ArgumentException from the DataRow indexer
    | BadCondition(text: string)   // ArgumentException from Enum.Parse
    | BadYear(text: string)        // FormatException / OverflowException from Convert.ToUInt16
    | BadPrice(text: string)       // FormatException from decimal.Parse
    | BadDate(text: string)        // FormatException from DateTime.Parse
    | NullArgument                 // ArgumentNullException from Vehicle.CompareTo(null)
  {
    /** Caught in ImportVehiclesFromFile by `catch (InvalidDataException)`. */
    predicate IsInvalidData()
      ensures IsInvalidData() ==> !IsInvalidOperation()
    {
      InvalidFileType? || UnsupportedSource?
    }

    /** Caught in ImportVehiclesFromFile by `catch (InvalidOperationException)`. */
    predicate IsInvalidOperation() {
      DealerNotFound?
    }
  }

  datatype Result<+T> = Ok(value: T) | Err(error: Error) {
    predicate IsFailure() {
      Err?
    }

    function PropagateFailure<U>(): Result<U>
      requires Err?
    {
      Err(error)
    }

    function Extract(): T
      requires Ok?
    {
      value
    }
  }
}
