/** The two enumerations of the library (ExtendedFormat.cs, LetterCase.cs),
    each with its member names as `System.Enum` knows them. */
module Enums {

  /** The named format transforms a placeholder may ask for. */
  datatype ExtendedFormat = Unknown | Abs | OneMinus | MinusOne | Stat | StatPercent | Negate

  /** The members in declaration order. */
  const ExtendedFormats: seq<ExtendedFormat> :=
    [Unknown, Abs, OneMinus, MinusOne, Stat, StatPercent, Negate]

  function ExtendedFormatName(f: ExtendedFormat): string {
    match f
    case Unknown => "Unknown"
    case Abs => "Abs"
    case OneMinus => "OneMinus"
    case MinusOne => "MinusOne"
    case Stat => "Stat"
    case StatPercent => "StatPercent"
    case Negate => "Negate"
  }

  /** The letter case `Strings.LetterCase` converts to. */
  datatype LetterCase = Ignore | Uppercase | Lowercase

  const LetterCases: seq<LetterCase> := [Ignore, Uppercase, Lowercase]

  function LetterCaseName(c: LetterCase): string {
    match c
    case Ignore => "Ignore"
    case Uppercase => "Uppercase"
    case Lowercase => "Lowercase"
  }
}
