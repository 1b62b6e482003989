/**
 * What the NLP pipeline hands to the question generator: named entities and
 * dependency-parse tokens, plus the constants shared by the generators.
 */
module Domain {

  type String = seq<char>

  /** A named entity found by the recogniser: its text and its kind label (PERSON, DATE, ...). */
  datatype Entity = Entity(text: String, kind: String)

  /** A token of the dependency parse: its text and its dependency relation. */
  datatype Token = Token(text: String, dep: String)

  /** The marker that stands in for a blanked-out entity. */
  const Blank: String := "_____"

  function Min(a: int, b: int): (m: int)
    ensures m <= a && m <= b && (m == a || m == b)
  {
    if a <= b then a else b
  }
}
