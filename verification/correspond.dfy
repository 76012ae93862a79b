/** The rudimentary check that a FlatBuffers field type and a C++ field type agree. */
module Correspond {
  import opened PyStr

  /** The coarse category a type falls in; a sequence takes priority over text. */
  datatype Category = Sequence | Text | Scalar

  /** A schema type is a sequence when it uses array syntax `[...]`, else text when it names `string`. */
  function SchemaCategory(fbsType: string): Category {
    if Contains(fbsType, "[") then Sequence
    else if Contains(fbsType, "string") then Text
    else Scalar
  }

  /** A C++ type is a sequence when it names `vector`, else text when it names `string` or `char *`. */
  function NativeCategory(cType: string): Category {
    if Contains(cType, "vector") then Sequence
    else if Contains(cType, "string") || Contains(cType, "char *") then Text
    else Scalar
  }

  /** `typesCorrespond`: both sides agree on being a sequence; failing that, on being text;
      every other pair is accepted. */
  function TypesCorrespond(fbsType: string, cType: string): (r: bool)
    ensures r <==> SchemaCategory(fbsType) == NativeCategory(cType)
  {
    if Contains(fbsType, "[") || Contains(cType, "vector") then
      Contains(fbsType, "[") && Contains(cType, "vector")
    else if Contains(fbsType, "string") || (Contains(cType, "string") || Contains(cType, "char *")) then
      Contains(fbsType, "string") && (Contains(cType, "string") || Contains(cType, "char *"))
    else
      true
  }
}
