/** The `Color` enumeration: six constants, each declared with a fixed integer
    tag, and the linear lookup from a tag back to its constant. */
module Colors {
  import opened Outcomes

  datatype Color = Red | Blue | Green | Yellow | White | Black

  /** The tags the constants are declared with, as a set. */
  const Tags: set<int> := {0, 1, 2, 4, 8, 16}

  /** The tag a constant carries (`getValue`). */
  function Value(c: Color): (v: Int32)
    ensures v in Tags
  {
    match c
    case Red => 0
    case Blue => 1
    case Green => 2
    case Yellow => 4
    case White => 8
    case Black => 16
  }

  /** `Color.values()`: every constant, in declaration order. */
  const Values: seq<Color> := [Red, Blue, Green, Yellow, White, Black]

  /** A constant's position in declaration order. The source never asks for it;
      it names where each constant sits in `Values`, which the lemma below needs. */
  function Ordinal(c: Color): (k: nat)
    ensures k < |Values| && Values[k] == c
  {
    match c
    case Red => 0
    case Blue => 1
    case Green => 2
    case Yellow => 3
    case White => 4
    case Black => 5
  }

  /** `Values` lists each constant exactly once. */
  lemma ValuesEnumerateColors()
    ensures forall c: Color :: c in Values
    ensures forall i, j :: 0 <= i < j < |Values| ==> Values[i] != Values[j]
  {
    forall c: Color
      ensures c in Values
    {
      assert Values[Ordinal(c)] == c;
    }
  }

  /** Distinct constants carry distinct tags, so `Value` is injective. */
  lemma ValueInjective(a: Color, b: Color)
    ensures Value(a) == Value(b) ==> a == b
  {
  }

  /** The scan of `findByAbbr` over a sequence of constants: the first constant
      whose tag equals `v`, or null when there is none. */
  function FindIn(cs: seq<Color>, v: int): (r: Option<Color>)
    ensures r.Some? ==> r.value in cs && Value(r.value) == v
    ensures r.None? <==> forall i :: 0 <= i < |cs| ==> Value(cs[i]) != v
  {
    if |cs| == 0 then None
    else if Value(cs[0]) == v then Some(cs[0])
    else FindIn(cs[1..], v)
  }

  /** The scan yields the first match in order. */
  lemma FindInFirstMatch(cs: seq<Color>, v: int, k: nat)
    requires k < |cs| && Value(cs[k]) == v
    requires forall j :: 0 <= j < k ==> Value(cs[j]) != v
    ensures FindIn(cs, v) == Some(cs[k])
  {
  }

  /** `findByAbbr`: the constant whose tag is `v`, or null when `v` is no tag.
      Since distinct constants carry distinct tags, the first match in `Values`
      is the only constant with that tag. */
  function FindByAbbr(v: Int32): (r: Option<Color>)
    ensures r.Some? ==> Value(r.value) == v
    ensures r.Some? <==> v in Tags
    ensures forall c: Color :: Value(c) == v ==> r == Some(c)
  {
    ValuesEnumerateColors();
    FindIn(Values, v)
  }

  /** Looking up a constant's own tag yields that constant. */
  lemma FindByAbbrOfValue(c: Color)
    ensures FindByAbbr(Value(c)) == Some(c)
  {
  }
}
