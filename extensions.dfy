/**
  The argument guards of GruppoClient.Utilities.Extensions. A .NET null is `None`; the
  ArgumentNullException a guard throws is a `Failure` naming the parameter.
*/
module Extensions {
  import opened Wrappers
  import opened Exceptions

  /** System.Char.IsWhiteSpace: the Unicode separators (Zs, Zl, Zp) and the control characters
      U+0009..U+000D, U+0085. */
  predicate IsWhiteSpace(c: char) {
    c == ' ' || ('\t' <= c <= '\r') || c == '\U{0085}' || c == '\U{00A0}' || c == '\U{1680}'
    || ('\U{2000}' <= c <= '\U{200A}') || c == '\U{2028}' || c == '\U{2029}' || c == '\U{202F}'
    || c == '\U{205F}' || c == '\U{3000}'
  }

  /** The scan string.IsNullOrWhiteSpace performs over a non-null string. */
  function AllWhiteSpace(s: string): (b: bool)
    ensures b <==> forall i :: 0 <= i < |s| ==> IsWhiteSpace(s[i])
  {
    if s == [] then true else IsWhiteSpace(s[0]) && AllWhiteSpace(s[1..])
  }

  predicate IsNullOrWhiteSpace(s: Option<string>) {
    s.None? || AllWhiteSpace(s.value)
  }

  /** NotNull: throws ArgumentNullException(name) for null, otherwise hands back its argument. */
  function NotNull<T>(o: Option<T>, name: string): (r: Result<T, Exception>)
    ensures r.Failure? <==> o.None?
    ensures r.Failure? ==> r.error == ArgumentNull(name)
    ensures r.Success? ==> r.value == o.value
  {
    match o
    case None => Failure(ArgumentNull(name))
    case Some(v) => Success(v)
  }

  /** NotNullOrEmpty: throws ArgumentNullException(name) for null, empty and all-white-space
      strings, otherwise hands back the string unchanged (surrounding white space included). */
  function NotNullOrEmpty(s: Option<string>, name: string): (r: Result<string, Exception>)
    ensures r.Failure? <==> s.None? || forall i :: 0 <= i < |s.value| ==> IsWhiteSpace(s.value[i])
    ensures r.Failure? ==> r.error == ArgumentNull(name)
    ensures r.Success? ==> r.value == s.value && |r.value| > 0
  {
    if IsNullOrWhiteSpace(s) then Failure(ArgumentNull(name)) else Success(s.value)
  }
}
