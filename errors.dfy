/** The error values `run` can return, with the text each one prints. */
module Errors {

  datatype Error =
    | SexRequired                   // the -sex flag was left empty
    | UnknownSex                    // the -sex flag is neither "boy" nor "girl"
    | BadTop                        // the -top flag is not one of the five sizes
    | Transport(reason: string)     // the POST itself failed; Go returns that error unchanged
    | BadStatus(status: string)     // the service answered with a status other than 200 OK
    | Unparsable(reason: string)    // the response body could not be read as a document
    | NoNames                       // no name was found for any year

  /** The line `main` prints for the error; only the texts passed through from elsewhere can be empty. */
  function Message(e: Error): (m: string)
    ensures |m| > 0 || e.Transport? || e.Unparsable?
    ensures e.BadStatus? ==> |m| >= 17 && m[..17] == "Found error code " && m[17..] == e.status
  {
    match e
    case SexRequired => "-sex is a required flag"
    case UnknownSex => "Unknown value for -sex found " + "(must be \"boy\" or \"girl\")"
    case BadTop => "top must be 20, 50, 100, 500, or 1000"
    case Transport(reason) => reason
    case BadStatus(status) => "Found error code " + status
    case Unparsable(reason) => reason
    case NoNames => "no names found"
  }

  /** Each error `run` raises itself prints a text of its own, so a reader can tell them apart. */
  lemma MessagesDistinct(e1: Error, e2: Error)
    requires e1 != e2 && !e1.Transport? && !e1.Unparsable? && !e2.Transport? && !e2.Unparsable?
    ensures Message(e1) != Message(e2)
  {
    if e1.BadStatus? && e2.BadStatus? {
      assert e1.status == Message(e1)[17..];
      assert e2.status == Message(e2)[17..];
    } else if e1.BadStatus? || e2.BadStatus? {
      var b, other := if e1.BadStatus? then e1 else e2, if e1.BadStatus? then e2 else e1;
      assert Message(b)[0] == 'F';
      match other
      case SexRequired => assert Message(other)[0] == '-';
      case UnknownSex => assert Message(other)[0] == 'U';
      case BadTop => assert Message(other)[0] == 't';
      case NoNames => assert Message(other)[0] == 'n';
    }
  }
}
