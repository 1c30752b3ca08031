/**
 * Vertex: a graph vertex whose identity is its Id alone. Equality and the
 * hash code look only at the Id; the text rendering is the agtype literal of
 * the vertex followed by the `::vertex` footer.
 */
module VertexType {
  import opened TextChars
  import opened AgeValues
  import CypherPatterns

  /** FOOTER: the suffix AGE writes after every vertex literal. */
  const Footer: string := "::vertex"

  /** A vertex; P stands for the property values, whose JSON form the caller supplies. */
  datatype Vertex<P> = Vertex(id: GraphId, labelName: string, properties: map<string, P>)

  /** The argument of Equals(object?): null, a boxed vertex, or an object of some other type. */
  datatype Boxed<P> = Null | BoxedVertex(vertex: Vertex<P>) | OtherObject

  /** Equals(object?): false for null and for non-vertices, else the Ids are compared. */
  function Equals<P>(v: Vertex<P>, obj: Boxed<P>): bool {
    match obj
    case Null => false
    case OtherObject => false
    case BoxedVertex(input) => v.id == input.id
  }

  /** operator ==: left.Equals(right). */
  function Eq<P>(left: Vertex<P>, right: Vertex<P>): bool {
    Equals(left, BoxedVertex(right))
  }

  /** operator !=: the negation of Equals. */
  function Neq<P>(left: Vertex<P>, right: Vertex<P>): bool {
    !Equals(left, BoxedVertex(right))
  }

  /** GetHashCode: Id.GetHashCode(); the hash of a GraphId is supplied by the caller. */
  function GetHashCode<P>(v: Vertex<P>, idHash: GraphId -> int): int {
    idHash(v.id)
  }

  const IdPrefix: string := "{\"id\": "

  /** ToString: the id unquoted, the label quoted verbatim, the serialised properties, then the footer. */
  function ToString<P>(v: Vertex<P>, serialize: map<string, P> -> string): string {
    IdPrefix + NatToString(v.id.value) + ", \"label\": \"" + v.labelName + "\", \"properties\": "
    + serialize(v.properties) + "}" + Footer
  }

  /** Null and objects of other types are never equal to a vertex. */
  lemma NotEqualToNullOrOthers<P>(v: Vertex<P>)
    ensures !Equals(v, Null) && !Equals(v, OtherObject)
  {
  }

  /** Two vertices are equal exactly when their Ids are; label and properties play no part. */
  lemma EqualityIsById<P>(v: Vertex<P>, w: Vertex<P>)
    ensures Eq(v, w) <==> v.id == w.id
  {
  }

  /** Changing the label or the properties keeps a vertex equal to what it was. */
  lemma LabelAndPropertiesIgnored<P>(v: Vertex<P>, newLabel: string, properties: map<string, P>)
    ensures Eq(v, v.(labelName := newLabel, properties := properties))
  {
  }

  /** == is an equivalence: reflexive, symmetric and transitive. */
  lemma EqIsEquivalence<P>(u: Vertex<P>, v: Vertex<P>, w: Vertex<P>)
    ensures Eq(u, u)
    ensures Eq(u, v) ==> Eq(v, u)
    ensures Eq(u, v) && Eq(v, w) ==> Eq(u, w)
  {
  }

  /** Equal vertices have equal hash codes, whatever the hash of a GraphId is. */
  lemma EqualVerticesHashAlike<P>(v: Vertex<P>, w: Vertex<P>, idHash: GraphId -> int)
    requires Eq(v, w)
    ensures GetHashCode(v, idHash) == GetHashCode(w, idHash)
  {
  }

  /** != is always the negation of ==, and == agrees with Equals on a boxed vertex. */
  lemma OperatorsAgree<P>(v: Vertex<P>, w: Vertex<P>)
    ensures Neq(v, w) == !Eq(v, w)
    ensures Eq(v, w) == Equals(v, BoxedVertex(w))
  {
  }

  /** The rendering starts with the id field and ends with the footer. */
  lemma ToStringShape<P>(v: Vertex<P>, serialize: map<string, P> -> string)
    ensures StartsWith(ToString(v, serialize), IdPrefix)
    ensures EndsWith(ToString(v, serialize), Footer)
  {
    var s := ToString(v, serialize);
    var rest := NatToString(v.id.value) + ", \"label\": \"" + v.labelName + "\", \"properties\": "
                + serialize(v.properties) + "}";
    assert s == IdPrefix + rest + Footer;
    assert s[..|IdPrefix|] == IdPrefix;
    assert s[|s| - |Footer|..] == Footer;
  }

  /** The id can be read back from the rendering: the digits after the prefix spell it out. */
  lemma IdReadBack<P>(v: Vertex<P>, serialize: map<string, P> -> string)
    ensures var s := ToString(v, serialize);
            var start := |IdPrefix|;
            var stop := CypherPatterns.DigitsEnd(s, start);
            AllDigits(s[start..stop]) && ParseNat(s[start..stop]) == v.id.value
  {
    var s := ToString(v, serialize);
    var digits := NatToString(v.id.value);
    var rest := ", \"label\": \"" + v.labelName + "\", \"properties\": " + serialize(v.properties) + "}" + Footer;
    assert s == IdPrefix + digits + rest;
    var start := |IdPrefix|;
    DigitRunEnds(s, start, digits, rest);
    assert s[start..start + |digits|] == digits;
    ParseNatToString(v.id.value);
  }

  /** In s = prefix + digits + rest with rest starting with a non-digit, the digit run after the prefix is exactly digits. */
  lemma DigitRunEnds(s: string, start: nat, digits: string, rest: string)
    requires start + |digits| + |rest| == |s| && AllDigits(digits)
    requires s[start..] == digits + rest
    requires rest != [] && !IsDigit(rest[0])
    ensures CypherPatterns.DigitsEnd(s, start) == start + |digits|
  {
    var e := CypherPatterns.DigitsEnd(s, start);
    forall k | start <= k < start + |digits|
      ensures IsDigit(s[k])
    {
      assert s[k] == (digits + rest)[k - start];
    }
    assert s[start + |digits|] == (digits + rest)[|digits|];
  }
}
