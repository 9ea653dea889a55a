/**
 * The few JavaScript string semantics the controllers depend on:
 * `String.prototype.trim`, optional chaining on a possibly undefined
 * field, and falsiness of a string.
 */
module JsString {
  import opened Wrappers

  /**
   * The code points that `trim` strips: ECMAScript's WhiteSpace (TAB, VT, FF,
   * ZWNBSP and every space separator of category Zs) and LineTerminator
   * (LF, CR, LS, PS), sections 12.2 and 12.3 of ECMA-262.
   */
  predicate IsJsSpace(c: char) {
    c == '\t' || c == '\n' || c == '\U{000B}' || c == '\U{000C}' || c == '\r'
    || c == ' ' || c == '\U{00A0}' || c == '\U{1680}'
    || ('\U{2000}' <= c <= '\U{200A}')
    || c == '\U{2028}' || c == '\U{2029}' || c == '\U{202F}' || c == '\U{205F}'
    || c == '\U{3000}' || c == '\U{FEFF}'
  }

  /** Drops leading space: what is left is a suffix that starts with a non-space. */
  function TrimStart(s: string): (r: string)
    ensures |r| <= |s| && r == s[|s| - |r|..]
    ensures forall i :: 0 <= i < |s| - |r| ==> IsJsSpace(s[i])
    ensures r != [] ==> !IsJsSpace(r[0])
  {
    if s != [] && IsJsSpace(s[0]) then TrimStart(s[1..]) else s
  }

  /** Drops trailing space: what is left is a prefix that ends with a non-space. */
  function TrimEnd(s: string): (r: string)
    ensures |r| <= |s| && r == s[..|r|]
    ensures forall i :: |r| <= i < |s| ==> IsJsSpace(s[i])
    ensures r != [] ==> !IsJsSpace(r[|r| - 1])
  {
    if s != [] && IsJsSpace(s[|s| - 1]) then TrimEnd(s[..|s| - 1]) else s
  }

  /** `s.trim()`: empty exactly when `s` is all space, otherwise delimited by non-space. */
  function Trim(s: string): (r: string)
    ensures |r| <= |s|
    ensures r == "" <==> forall i :: 0 <= i < |s| ==> IsJsSpace(s[i])
    ensures r != [] ==> !IsJsSpace(r[0]) && !IsJsSpace(r[|r| - 1])
  {
    TrimIsEmptyIff(s);
    TrimEnd(TrimStart(s))
  }

  lemma TrimIsEmptyIff(s: string)
    ensures TrimEnd(TrimStart(s)) == "" <==> forall i :: 0 <= i < |s| ==> IsJsSpace(s[i])
  {
  }

  /** `field?.trim() === ""`: an undefined field is never blank, a supplied one is when it trims to "". */
  predicate SuppliedBlank(field: Option<string>) {
    field.Some? && Trim(field.value) == ""
  }

  /** `!v` for a string that may be undefined: undefined and "" are falsy. */
  predicate Falsy(v: Option<string>) {
    v.None? || v.value == ""
  }
}
