/** Outcome types shared by the option parsers and the atlas pipeline.
    Every `throw` of the program becomes an `Err` carrying one of the
    error kinds below; `Message` gives the text the program throws. */
module Failures {

  datatype Option<+T> = None | Some(value: T)

  /** The failures the modelled code raises. */
  datatype Error =
    | InvalidCharsValue      // parseCharsString: the stripped text fails the grammar
    | CharsOutOfRange        // parseCharsString: a number does not fit in 16 bits
    | CharsFileUnreadable    // getCharsFromFile: the file cannot be opened
    | InvalidColor           // parseColor: bad syntax or a component above 255
    | InvalidDataFormat      // parseCommandLine: unknown --data-format value
    | InvalidGlyph           // main: a glyph violates the metric invariants

  datatype Result<+T> = Ok(value: T) | Err(error: Error)

  /** The text of the exception the program throws for each error. */
  function Message(e: Error): string
  {
    match e
    case InvalidCharsValue => "invalid chars value"
    case CharsOutOfRange => "incorrect chars value (out of range)"
    case CharsFileUnreadable => "can`t open characters file"
    case InvalidColor => "invalid color"
    case InvalidDataFormat => "invalid data format"
    case InvalidGlyph => "invalid glyph"
  }

  /** Each failure has its own text, so the message names the failure. */
  lemma MessagesDistinct(e1: Error, e2: Error)
    ensures Message(e1) == Message(e2) <==> e1 == e2
  {
    if e1 != e2 {
      assert Message(e1)[..3] != Message(e2)[..3] || |Message(e1)| != |Message(e2)| || Message(e1)[8] != Message(e2)[8];
    }
  }
}
