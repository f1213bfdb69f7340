/**
 * The exception records of exceptions.py: an error code with the keyword arguments the
 * translated message is filled from, the location a client is shown, and the extra
 * fields of warnings and parse errors.
 */
module Exceptions {
  import opened Wrappers

  /** A keyword argument's value: a text, a number or a list (a `[row, col]` location). */
  datatype Argument = Text(s: string) | Number(n: int) | Items(xs: seq<Argument>)

  /** What a subclass adds to the record. */
  datatype Extra =
    | NoExtra
    | Warning(fixedCode: string, fixedResult: string)
    | ParseFix(parseFixedCode: Option<string>)

  /** `HedyException(error_code, **arguments)` and the attributes its subclasses set. */
  datatype HedyException = HedyException(errorCode: string, arguments: map<string, Argument>, extra: Extra)

  /** `HedyException.__init__`: the code and the arguments are kept as given. */
  function NewHedyException(errorCode: string, arguments: map<string, Argument>): (e: HedyException)
    ensures e.errorCode == errorCode && e.arguments == arguments
    ensures e.extra == NoExtra
  {
    HedyException(errorCode, arguments, NoExtra)
  }

  /**
   * `error_location`: the `location` argument if there is one, otherwise the
   * `line_number` argument as a one-element list, otherwise `None`.
   */
  function ErrorLocation(e: HedyException): (r: Option<Argument>)
    ensures r.None? <==> "location" !in e.arguments && "line_number" !in e.arguments
    ensures "location" in e.arguments ==> r == Some(e.arguments["location"])
    ensures "location" !in e.arguments && "line_number" in e.arguments ==> r == Some(Items([e.arguments["line_number"]]))
  {
    if "location" in e.arguments then Some(e.arguments["location"])
    else if "line_number" in e.arguments then Some(Items([e.arguments["line_number"]]))
    else None
  }

  /** A location given as `line_number` always comes back as a list. */
  lemma LineNumberIsList(e: HedyException)
    requires "location" !in e.arguments && "line_number" in e.arguments
    ensures ErrorLocation(e).Some? && ErrorLocation(e).value.Items? && |ErrorLocation(e).value.xs| == 1
  {
  }

  /** `WarningException(error_code, fixed_code, fixed_result, **arguments)` */
  function NewWarningException(errorCode: string, fixedCode: string, fixedResult: string,
                               arguments: map<string, Argument>): (e: HedyException)
    ensures e.errorCode == errorCode && e.arguments == arguments
    ensures e.extra.Warning? && e.extra.fixedCode == fixedCode && e.extra.fixedResult == fixedResult
  {
    var base := NewHedyException(errorCode, arguments);
    base.(extra := Warning(fixedCode, fixedResult))
  }

  /**
   * `InvalidSpaceException(level, line_number, fixed_code, fixed_result)`: the fixed code
   * and result bind to the warning's own parameters, so only the level and the line
   * number become arguments.
   */
  function NewInvalidSpaceException(level: Argument, lineNumber: Argument, fixedCode: string, fixedResult: string): (e: HedyException)
    ensures e.errorCode == "Invalid Space"
    ensures e.arguments.Keys == {"level", "line_number"}
    ensures e.arguments["level"] == level && e.arguments["line_number"] == lineNumber
    ensures e.extra == Warning(fixedCode, fixedResult)
  {
    NewWarningException("Invalid Space", fixedCode, fixedResult, map["level" := level, "line_number" := lineNumber])
  }

  /** An invalid space is located by its line number. */
  lemma InvalidSpaceLocation(level: Argument, lineNumber: Argument, fixedCode: string, fixedResult: string)
    ensures ErrorLocation(NewInvalidSpaceException(level, lineNumber, fixedCode, fixedResult)) == Some(Items([lineNumber]))
  {
  }

  /**
   * `ParseException(level, location, found, fixed_code)`: `found` is passed both as
   * `found` and, for older messages, as `character_found`.
   */
  function NewParseException(level: Argument, location: Argument, found: Argument, fixedCode: Option<string>): (e: HedyException)
    ensures e.errorCode == "Parse"
    ensures e.arguments.Keys == {"level", "location", "found", "character_found"}
    ensures e.arguments["level"] == level && e.arguments["location"] == location
    ensures e.arguments["found"] == found && e.arguments["character_found"] == found
    ensures e.extra == ParseFix(fixedCode)
  {
    var arguments := map["level" := level, "location" := location, "found" := found, "character_found" := found];
    NewHedyException("Parse", arguments).(extra := ParseFix(fixedCode))
  }

  /** A parse error is located where the parser says, whatever else it carries. */
  lemma ParseLocation(level: Argument, location: Argument, found: Argument, fixedCode: Option<string>)
    ensures ErrorLocation(NewParseException(level, location, found, fixedCode)) == Some(location)
  {
  }

  /** `location` wins over `line_number` when both are given. */
  lemma LocationWins(e: HedyException, lineNumber: Argument)
    requires "location" in e.arguments
    ensures ErrorLocation(e.(arguments := e.arguments["line_number" := lineNumber])) == ErrorLocation(e)
  {
  }
}
