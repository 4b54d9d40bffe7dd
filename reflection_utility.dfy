/** ReflectionUtility: the rich-text signature of a method, its name followed by one
    white-coloured segment per parameter type, with the common CLR type names replaced
    by their C# keywords. A type is its namespace and short name; a method is its name
    and its parameter types in declaration order. */
module Reflection {

  datatype TypeInfo = TypeInfo(namespace: string, name: string)

  datatype MethodInfo = MethodInfo(name: string, parameters: seq<TypeInfo>)

  /** The short CLR names that have a C# keyword, and the keyword. */
  const Aliases: map<string, string> :=
    map["Int32" := "int", "Single" := "float", "Double" := "double", "Boolean" := "bool", "String" := "string"]

  /** TypeToSimpleTypeString: the C# keyword for the five aliased names (matched on the
      short name only), the short name itself otherwise. */
  function SimpleTypeName(t: TypeInfo): string {
    match t.name
    case "Int32" => "int"
    case "Single" => "float"
    case "Double" => "double"
    case "Boolean" => "bool"
    case "String" => "string"
    case _ => t.name
  }

  const SegmentOpen: string := " <color=\"white\">"
  const SegmentClose: string := "</color>"

  /** The text appended for one parameter. */
  function Segment(t: TypeInfo): string {
    SegmentOpen + SimpleTypeName(t) + SegmentClose
  }

  /** The segments of a parameter list, in declaration order. */
  function Segments(ps: seq<TypeInfo>): string
    decreases |ps|
  {
    if ps == [] then "" else Segments(ps[..|ps| - 1]) + Segment(ps[|ps| - 1])
  }

  method GetMethodDefinitionString(m: MethodInfo) returns (s: string)
    ensures s == m.name + Segments(m.parameters)
  {
    s := m.name;
    var i := 0;
    while i < |m.parameters|
      invariant 0 <= i <= |m.parameters|
      invariant s == m.name + Segments(m.parameters[..i])
    {
      assert m.parameters[..i + 1][..i] == m.parameters[..i];
      s := s + Segment(m.parameters[i]);
      i := i + 1;
    }
    assert m.parameters[..i] == m.parameters;
  }

  // ---------------------------------------------------------------------------
  // Properties

  /** The keyword is the alias of the short name, and any other name stays as it is. */
  lemma SimpleTypeNameIsAlias(t: TypeInfo)
    ensures t.name in Aliases ==> SimpleTypeName(t) == Aliases[t.name]
    ensures t.name !in Aliases ==> SimpleTypeName(t) == t.name
  {
  }

  /** Aliasing looks at the short name only: the namespace never matters. */
  lemma NamespaceIgnored(ns1: string, ns2: string, name: string)
    ensures SimpleTypeName(TypeInfo(ns1, name)) == SimpleTypeName(TypeInfo(ns2, name))
  {
  }

  lemma ConcatAssociative(a: string, b: string, c: string)
    ensures (a + b) + c == a + (b + c)
  {
  }

  /** One more parameter adds its segment at the end. */
  lemma SegmentsSnoc(ps: seq<TypeInfo>, t: TypeInfo)
    ensures Segments(ps + [t]) == Segments(ps) + Segment(t)
  {
    assert (ps + [t])[..|ps|] == ps;
  }

  /** The segments of two parameter lists concatenate: one segment per parameter, in
      declaration order. */
  lemma {:induction false} SegmentsAppend(ps: seq<TypeInfo>, qs: seq<TypeInfo>)
    ensures Segments(ps + qs) == Segments(ps) + Segments(qs)
    decreases |qs|
  {
    if qs == [] {
      assert ps + qs == ps;
    } else {
      var init, last := qs[..|qs| - 1], qs[|qs| - 1];
      assert qs == init + [last];
      assert ps + qs == (ps + init) + [last];
      SegmentsAppend(ps, init);
      SegmentsSnoc(ps + init, last);
      SegmentsSnoc(init, last);
      ConcatAssociative(Segments(ps), Segments(init), Segment(last));
    }
  }

  /** The definition starts with the method name, and a parameterless method yields
      exactly its name. */
  lemma DefinitionStartsWithName(m: MethodInfo)
    ensures |m.name| <= |m.name + Segments(m.parameters)|
    ensures (m.name + Segments(m.parameters))[..|m.name|] == m.name
    ensures m.parameters == [] ==> m.name + Segments(m.parameters) == m.name
  {
  }

  /** Adding a parameter at the end adds its segment at the end. */
  lemma DefinitionOfOneMoreParameter(m: MethodInfo, t: TypeInfo)
    ensures m.name + Segments(m.parameters + [t]) == m.name + Segments(m.parameters) + Segment(t)
  {
    SegmentsSnoc(m.parameters, t);
  }
}
