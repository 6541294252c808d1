/** The custom JSON adapter registered for `Color`: a constant is written as its
    integer tag and an integer is read back through `findByAbbr`. The JSON element
    is modelled by the integer it holds. */
module ColorSerializer {
  import opened Outcomes
  import opened Colors

  /** `serialize`: the JSON number written for a constant. */
  function Serialize(c: Color): (n: Int32)
    ensures n in Tags
    ensures FindByAbbr(n) == Some(c)
  {
    FindByAbbrOfValue(c);
    Value(c)
  }

  /** `deserialize`: the constant read back from a JSON integer; an integer that
      is no declared tag reads as null rather than raising an error. */
  function Deserialize(n: Int32): (r: Option<Color>)
    ensures r.None? <==> n !in Tags
    ensures r.Some? ==> Serialize(r.value) == n
  {
    FindByAbbr(n)
  }

  /** Writing a constant and reading it back gives the constant. */
  lemma RoundTrip(c: Color)
    ensures Deserialize(Serialize(c)) == Some(c)
  {
  }

  /** Reading an integer that denotes a constant and writing it again gives the
      same integer. */
  lemma ReverseRoundTrip(n: Int32)
    ensures Deserialize(n).Some? ==> Serialize(Deserialize(n).value) == n
  {
  }
}
