// VectorUtil: copying a Vector of strings into a String[].
module Utils {
  import opened Wrappers
  import opened JavaString

  /** An element of a java.util.Vector: a string, or an object of another class. */
  datatype Element = Text(s: string) | OtherObject

  /** The strings of a vector that holds only strings, in order. */
  function Strings(v: seq<Element>): (r: seq<string>)
    requires forall k :: 0 <= k < |v| ==> v[k].Text?
    ensures |r| == |v|
    ensures forall k :: 0 <= k < |v| ==> r[k] == v[k].s
  {
    if v == [] then [] else Strings(v[..|v| - 1]) + [v[|v| - 1].s]
  }

  /** VectorUtil.convertToStringArray: a new array as long as the vector,
      filled element by element in the vector's order. The cast to String
      throws at the first element that is not one. The vector is only read. */
  method ConvertToStringArray(strings: seq<Element>) returns (r: Result<array<string>, Exception>)
    ensures r.Ok? <==> forall k :: 0 <= k < |strings| ==> strings[k].Text?
    ensures r.Err? ==> r.error == ClassCast
    ensures r.Ok? ==> fresh(r.value) && r.value[..] == Strings(strings)
  {
    var copy := new string[|strings|](_ => "");
    var i := 0;
    while i < |strings|
      invariant 0 <= i <= |strings|
      invariant forall k :: 0 <= k < i ==> strings[k].Text? && copy[k] == strings[k].s
    {
      if !strings[i].Text? {
        return Err(ClassCast);
      }
      copy[i] := strings[i].s;
      i := i + 1;
    }
    return Ok(copy);
  }
}
