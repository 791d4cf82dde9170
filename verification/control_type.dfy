/** The closed taxonomy of control kinds and the short names the compiler
    uses for them when it builds symbol names for generated code
    (compiler/common/ControlType.cpp). */
module ControlTypes {
  import opened Wrappers

  /** NumExtract and MidiExtract are the "array of" forms of Number and Midi,
      read as a historical buffer rather than an instantaneous sample. */
  datatype ControlType = Number | Graph | Midi | Roll | NumExtract | MidiExtract {

    predicate IsExtracted() {
      this == NumExtract || this == MidiExtract
    }

    /** The scalar kind an extracted kind is an array of. */
    function Base(): (b: ControlType)
      requires IsExtracted()
      ensures !b.IsExtracted()
      ensures b == Number || b == Midi
      ensures (this == NumExtract) <==> (b == Number)
    {
      if this == NumExtract then Number else Midi
    }
  }

  /** True when `s` ends with the array suffix "[]". */
  predicate HasArraySuffix(s: string) {
    |s| >= 2 && s[|s| - 2..] == "[]"
  }

  /** controlType2String. Every enumerator has a case; a value outside the
      enumeration cannot be built from this closed datatype, so the fatal
      default branch has no counterpart here. */
  function Name(t: ControlType): (r: string)
    ensures |r| > 0
    ensures HasArraySuffix(r) <==> t.IsExtracted()
  {
    match t
    case Number => "num"
    case Graph => "graph"
    case Midi => "midi"
    case Roll => "roll"
    case NumExtract => "num[]"
    case MidiExtract => "midi[]"
  }

  /** The inverse of `Name`: the control type a symbol-name fragment stands
      for, or None for a string that is no control type's name. */
  function Parse(s: string): (r: Option<ControlType>)
    ensures r.Some? ==> Name(r.value) == s
  {
    if s == "num" then Some(Number)
    else if s == "graph" then Some(Graph)
    else if s == "midi" then Some(Midi)
    else if s == "roll" then Some(Roll)
    else if s == "num[]" then Some(NumExtract)
    else if s == "midi[]" then Some(MidiExtract)
    else None
  }

  /** Parsing a type's name gives the type back, so names identify types. */
  lemma ParseName(t: ControlType)
    ensures Parse(Name(t)) == Some(t)
  {
  }

  /** Distinct control types never share a name. */
  lemma NameInjective(a: ControlType, b: ControlType)
    ensures Name(a) == Name(b) ==> a == b
  {
    ParseName(a);
    ParseName(b);
  }

  /** The name of an extracted type is its base type's name with "[]" appended. */
  lemma ExtractedName(t: ControlType)
    requires t.IsExtracted()
    ensures Name(t) == Name(t.Base()) + "[]"
  {
  }
}
