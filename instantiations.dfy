/** The table of conversions the `From` macro is instantiated for. */
module Instantiations {
  /** The four fixed-layout buffer kinds the conversions connect. */
  datatype BufferKind = RGBBuffer | BGRBuffer | RGBABuffer | BGRABuffer

  /** The (source, destination) pairs a conversion is generated for. */
  const Instantiations: seq<(BufferKind, BufferKind)> := [
    (RGBBuffer, BGRBuffer), (RGBBuffer, RGBABuffer), (RGBBuffer, BGRABuffer),
    (BGRBuffer, RGBBuffer), (BGRBuffer, RGBABuffer), (BGRBuffer, BGRABuffer),
    (RGBABuffer, RGBBuffer), (RGBABuffer, BGRBuffer), (RGBABuffer, BGRABuffer),
    (BGRABuffer, RGBBuffer), (BGRABuffer, BGRBuffer), (BGRABuffer, RGBABuffer)]

  /** Position of a pair in the table: sources in declaration order, and
      for each source its destinations in declaration order. */
  function Index(a: BufferKind, b: BufferKind): nat
    requires a != b
  {
    var i := match a case RGBBuffer => 0 case BGRBuffer => 1 case RGBABuffer => 2 case BGRABuffer => 3;
    var j := match b case RGBBuffer => 0 case BGRBuffer => 1 case RGBABuffer => 2 case BGRABuffer => 3;
    i * 3 + (if j < i then j else j - 1)
  }

  /** Every ordered pair of two different kinds is converted, once; no kind
      is converted to itself. */
  lemma InstantiationsComplete()
    ensures |Instantiations| == 12
    ensures forall i :: 0 <= i < |Instantiations| ==>
      Instantiations[i].0 != Instantiations[i].1 && Index(Instantiations[i].0, Instantiations[i].1) == i
    ensures forall a: BufferKind, b: BufferKind :: (a, b) in Instantiations <==> a != b
    ensures forall i, j :: 0 <= i < j < |Instantiations| ==> Instantiations[i] != Instantiations[j]
  {
    forall i | 0 <= i < |Instantiations|
      ensures Instantiations[i].0 != Instantiations[i].1 && Index(Instantiations[i].0, Instantiations[i].1) == i
    {
    }
    forall a: BufferKind, b: BufferKind
      ensures (a, b) in Instantiations <==> a != b
    {
      if a != b {
        assert Instantiations[Index(a, b)] == (a, b);
      }
    }
  }
}
