/** Option, the failures both script revisions raise, and the result of one step. */
module Outcomes {

  datatype Option<+T> = None | Some(value: T)

  /** One constructor per exception the scripts raise (or let Python raise). */
  datatype Failure =
    | EmptyChoices                     // use_dmenu called with an empty list
    | NotAnInteger                     // int() of the selector's reply raised
    | IndexOutOfRange(index: int)      // inputs[int(sel)] raised IndexError
    | KeysNotSubscriptable             // inputs[int(sel)] on a Python 3 dict_keys view raised TypeError
    | UnknownLabel(choice: string)     // a dict lookup by menu label raised KeyError
    | NoHeader(name: string)           // no status line introduces the display
    | BadHeader(line: string)          // the line starts with the name but the header pattern fails
    | BadModeLine(line: string)        // a digit-led mode line without a WIDTHxHEIGHT prefix
    | AlreadyActive(name: string)      // activate on an active display
    | NotActive(name: string)          // deactivate on an inactive display
    | LastDisplay                      // deactivate while exactly one display is active
    | NotConnected(name: string)       // get_options on a disconnected display
    | NotAvailable(resolution: string) // change_resolution to a mode not listed
    | NoMatchingDisplay(choice: string) // no display's name occurs in the selected label
    | EmptyCommand                     // the configured dmenu_command splits into no words

  /** A step that cannot be cancelled by the user: parsing. */
  datatype Result<+T> = Ok(value: T) | Err(failure: Failure)

  /** A step that may prompt: it completes, the user cancels (the scripts call
      sys.exit()), or it fails. */
  datatype Outcome<+T> = Done(value: T) | Exit | Fail(failure: Failure)
}
