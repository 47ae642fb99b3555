/**
  The few Java-language notions the helpers of CoreUtils rely on: nullable
  references, the signed `byte`, and what `StringBuilder.append` and
  commons-lang `StringUtils.isNotEmpty` do with a possibly-null string.
 */
module JavaLang {

  /** A value that may be absent; for a Java reference, `None` is `null`. */
  datatype Option<+T> = None | Some(value: T)

  /** The end of a Java call: a normal return with a value, or an exception. */
  datatype Result<+T, +E> = Ok(value: T) | Err(error: E)

  /** Java's `byte`: a signed 8-bit integer. */
  type Byte = x: int | -128 <= x < 128

  /** A Java `String` reference: either `null` or a sequence of characters. */
  type JString = Option<string>

  /** The characters `StringBuilder.append(String)` adds: the string itself, or "null" for a null reference. */
  function Text(s: JString): (t: string)
    ensures s.Some? ==> t == s.value
    ensures s.None? ==> t == "null"
  {
    match s
    case None => "null"
    case Some(v) => v
  }

  /** `StringUtils.isNotEmpty`: neither null nor of length zero. */
  predicate IsNotEmpty(s: JString) {
    s.Some? && |s.value| > 0
  }

  /** The text of every reference of `ss`, in order, as `append` would render each. */
  function Texts(ss: seq<JString>): (ts: seq<string>)
    ensures |ts| == |ss|
    ensures forall i :: 0 <= i < |ss| ==> ts[i] == Text(ss[i])
  {
    if |ss| == 0 then [] else Texts(ss[..|ss| - 1]) + [Text(ss[|ss| - 1])]
  }

  /** The contents of a Java varargs array, where a `null` array contributes nothing. */
  function VarArgs<T>(a: array?<T>): (s: seq<T>)
    reads a
    ensures a == null ==> s == []
    ensures a != null ==> s == a[..]
  {
    if a == null then [] else a[..]
  }
}
