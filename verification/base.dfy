/** Shared vocabulary of the broadcast console model: optional values, the
    error results the services and pages raise, and the clock type.

    Every service call of the console is an atomic state transition here; a
    thrown `Error(...)` becomes `Err(...)` and a returned value becomes `Ok(...)`. */
module Base {

  /** Milliseconds since the epoch. `new Date().toISOString()` values are
      represented by the instant they encode. */
  type Time = int

  datatype Option<+T> = None | Some(value: T)

  /** The messages the console raises, one constructor per distinct message. */
  datatype Error =
    | NotFound(entity: string)   // "<Entity> not found"
    | InvalidIdFormat            // settings: parseInt gave NaN
    | NotDeleted                 // "Contact is not deleted"
    | CsvTooShort                // "CSV must have at least a header row and one data row"
    | CsvMissingColumns          // "CSV must contain Name, WhatsApp/Phone, and Email columns"
    | EmptyListName              // "Please enter a list name"
    | NoListSelected             // "Please select a list first"
    | NoContactsToUpload         // "No valid contacts to upload"
    | SendRefused                // "Please select a list and enter a message"
    | MissingRequiredFields      // "Please fill in all required fields"

  datatype Result<+T> = Ok(value: T) | Err(error: Error)
}
