/**
 * The `Authorization` header value as `AuthenticationHeaderValue` reads and
 * writes it: a scheme token, then optionally whitespace and a parameter
 * (the credentials of section 2 of RFC 7235).
 */
module AuthHeader {
  import opened Wrappers

  datatype HeaderValue = HeaderValue(scheme: string, parameter: Option<string>)

  /** `tchar` of section 3.2.6 of RFC 7230. */
  predicate IsTokenChar(c: char) {
    || 'a' <= c <= 'z' || 'A' <= c <= 'Z' || '0' <= c <= '9'
    || c == '!' || c == '#' || c == '$' || c == '%' || c == '&' || c == '\'' || c == '*'
    || c == '+' || c == '-' || c == '.' || c == '^' || c == '_' || c == '`' || c == '|' || c == '~'
  }

  predicate IsToken(s: string) {
    |s| > 0 && forall i :: 0 <= i < |s| ==> IsTokenChar(s[i])
  }

  /** Linear whitespace between the scheme and the parameter. */
  predicate IsSpace(c: char) {
    c == ' ' || c == '\t'
  }

  /** Non-empty, no surrounding whitespace. */
  predicate IsTrimmed(p: string) {
    |p| > 0 && !IsSpace(p[0]) && !IsSpace(p[|p| - 1])
  }

  /**
   * A parameter the parser can hand back: trimmed, and free of the ',' that
   * would start another header value and of the '"' that opens a quoted string.
   */
  predicate IsBlob(p: string) {
    IsTrimmed(p) && ',' !in p && '"' !in p
  }

  function TrimStart(s: string): (t: string)
    ensures |t| <= |s| && t == s[|s| - |t|..]
    ensures t == [] || !IsSpace(t[0])
    ensures forall i :: 0 <= i < |s| - |t| ==> IsSpace(s[i])
  {
    if s != [] && IsSpace(s[0]) then TrimStart(s[1..]) else s
  }

  function TrimEnd(s: string): (t: string)
    ensures |t| <= |s| && t == s[..|t|]
    ensures t == [] || !IsSpace(t[|t| - 1])
  {
    if s != [] && IsSpace(s[|s| - 1]) then TrimEnd(s[..|s| - 1]) else s
  }

  /** The length of the longest run of token characters at the start of `s`. */
  function TokenLength(s: string): (n: nat)
    ensures n <= |s|
    ensures forall i :: 0 <= i < n ==> IsTokenChar(s[i])
    ensures n < |s| ==> !IsTokenChar(s[n])
  {
    if s != [] && IsTokenChar(s[0]) then 1 + TokenLength(s[1..]) else 0
  }

  /**
   * `AuthenticationHeaderValue.TryParse`: surrounding whitespace is ignored; a
   * scheme token must come first; anything after it must be separated by
   * whitespace and is the parameter. A parameter holding ',' or '"' is
   * rejected: there the framework reads a list of values or a quoted string,
   * never a single Basic credential.
   */
  function TryParse(s: string): (r: Option<HeaderValue>)
    ensures r.Some? ==> IsToken(r.value.scheme)
    ensures r.Some? && r.value.parameter.Some? ==> IsBlob(r.value.parameter.value)
    ensures TrimEnd(TrimStart(s)) == [] ==> r.None?
  {
    ParseTrimmedShape(TrimEnd(TrimStart(s)));
    ParseTrimmed(TrimEnd(TrimStart(s)))
  }

  function ParseTrimmed(t: string): Option<HeaderValue> {
    var n := TokenLength(t);
    if n == 0 then None
    else if n == |t| then Some(HeaderValue(t, None))
    else if !IsSpace(t[n]) then None
    else
      var p := TrimStart(t[n..]);
      if ',' in p || '"' in p then None else Some(HeaderValue(t[..n], Some(p)))
  }

  lemma ParseTrimmedShape(t: string)
    requires t == [] || !IsSpace(t[|t| - 1])
    ensures ParseTrimmed(t).Some? ==> IsToken(ParseTrimmed(t).value.scheme)
    ensures ParseTrimmed(t).Some? && ParseTrimmed(t).value.parameter.Some? ==> IsBlob(ParseTrimmed(t).value.parameter.value)
    ensures t == [] ==> ParseTrimmed(t).None?
  {
    var n := TokenLength(t);
    if n == |t| && n > 0 {
      TokenPrefix(t, n);
      assert t[..n] == t;
    } else if 0 < n < |t| && IsSpace(t[n]) {
      TokenPrefix(t, n);
      var rest := t[n..];
      assert rest[|rest| - 1] == t[|t| - 1];
      TrimStartTrimmed(rest);
    }
  }

  lemma TokenPrefix(t: string, n: nat)
    requires 0 < n <= |t|
    requires forall i :: 0 <= i < n ==> IsTokenChar(t[i])
    ensures IsToken(t[..n])
  {
  }

  /** Trimming the front of text that ends in a non-space leaves a trimmed parameter. */
  lemma TrimStartTrimmed(s: string)
    requires s != [] && !IsSpace(s[|s| - 1])
    ensures IsTrimmed(TrimStart(s))
  {
    var t := TrimStart(s);
    if t != [] {
      assert t[|t| - 1] == s[|s| - 1];
    }
  }

  /** `AuthenticationHeaderValue.ToString`: the scheme, then one space and the parameter if there is one. */
  function Format(h: HeaderValue): string {
    match h.parameter
    case None => h.scheme
    case Some(p) => h.scheme + " " + p
  }

  lemma {:induction false} TokenLengthPrefix(a: string, b: string)
    requires forall i :: 0 <= i < |a| ==> IsTokenChar(a[i])
    requires b != [] && !IsTokenChar(b[0])
    ensures TokenLength(a + b) == |a|
  {
    if a != [] {
      assert (a + b)[1..] == a[1..] + b;
      TokenLengthPrefix(a[1..], b);
    }
  }

  lemma {:induction false} TokenLengthAll(a: string)
    requires forall i :: 0 <= i < |a| ==> IsTokenChar(a[i])
    ensures TokenLength(a) == |a|
  {
    if a != [] {
      TokenLengthAll(a[1..]);
    }
  }

  lemma TryParseSchemeOnly(scheme: string)
    requires IsToken(scheme)
    ensures TryParse(scheme) == Some(HeaderValue(scheme, None))
  {
    assert TrimStart(scheme) == scheme;
    assert TrimEnd(scheme) == scheme;
    TokenLengthAll(scheme);
  }

  lemma TrimIdentity(s: string)
    requires IsTrimmed(s)
    ensures TrimEnd(TrimStart(s)) == s
  {
    assert TrimStart(s) == s;
  }

  lemma ParseTrimmedSplit(s: string, n: nat)
    requires 0 < n < |s| && TokenLength(s) == n && s[n] == ' '
    ensures var p := TrimStart(s[n..]);
      ParseTrimmed(s) == if ',' in p || '"' in p then None else Some(HeaderValue(s[..n], Some(p)))
  {
  }

  lemma TokenLengthBeforeSpace(scheme: string, p: string)
    requires IsToken(scheme)
    ensures TokenLength(scheme + " " + p) == |scheme|
  {
    TokenLengthPrefix(scheme, " " + p);
    assert scheme + " " + p == scheme + (" " + p);
  }

  lemma TrimStartSpace(p: string)
    requires IsTrimmed(p)
    ensures TrimStart(" " + p) == p
  {
    assert (" " + p)[1..] == p;
  }

  lemma SchemeAndParameterTrimmed(scheme: string, p: string)
    requires IsToken(scheme) && IsTrimmed(p)
    ensures IsTrimmed(scheme + " " + p)
    ensures TrimEnd(TrimStart(scheme + " " + p)) == scheme + " " + p
  {
    var s := scheme + " " + p;
    assert s[0] == scheme[0] && s[|s| - 1] == p[|p| - 1];
    TrimIdentity(s);
  }

  lemma ParseSchemeAndParameter(scheme: string, p: string)
    requires IsToken(scheme) && IsBlob(p)
    ensures ParseTrimmed(scheme + " " + p) == Some(HeaderValue(scheme, Some(p)))
  {
    var s := scheme + " " + p;
    var n := |scheme|;
    TokenLengthBeforeSpace(scheme, p);
    assert s[n] == ' ' && s[..n] == scheme && s[n..] == " " + p;
    TrimStartSpace(p);
    ParseTrimmedSplit(s, n);
  }

  lemma TryParseOfTrimmed(s: string)
    requires IsTrimmed(s)
    ensures TryParse(s) == ParseTrimmed(s)
  {
    TrimIdentity(s);
  }

  lemma TryParseSchemeAndParameter(scheme: string, p: string)
    requires IsToken(scheme) && IsBlob(p)
    ensures TryParse(scheme + " " + p) == Some(HeaderValue(scheme, Some(p)))
  {
    SchemeAndParameterTrimmed(scheme, p);
    ParseSchemeAndParameter(scheme, p);
    TryParseOfTrimmed(scheme + " " + p);
  }

  /**
   * A parameter holding ',' but no '=' and no '"' makes the whole header
   * invalid: "Basic a,b" is two values where one is expected, since what
   * follows the comma is not a `name=value` pair.
   */
  lemma TryParseRejectsList(scheme: string, p: string)
    requires IsToken(scheme) && IsTrimmed(p)
    requires ',' in p && '=' !in p && '"' !in p
    ensures TryParse(scheme + " " + p).None?
  {
    SchemeAndParameterTrimmed(scheme, p);
    ParseSchemeRejects(scheme, p);
    TryParseOfTrimmed(scheme + " " + p);
  }

  lemma ParseSchemeRejects(scheme: string, p: string)
    requires IsToken(scheme) && IsTrimmed(p)
    requires ',' in p || '"' in p
    ensures ParseTrimmed(scheme + " " + p).None?
  {
    var s := scheme + " " + p;
    var n := |scheme|;
    TokenLengthBeforeSpace(scheme, p);
    assert s[n] == ' ' && s[n..] == " " + p;
    TrimStartSpace(p);
    ParseTrimmedSplit(s, n);
  }


  /** Round trip: a header written from a token scheme and a blob parameter parses back to them. */
  lemma TryParseFormat(h: HeaderValue)
    requires IsToken(h.scheme)
    requires h.parameter.Some? ==> IsBlob(h.parameter.value)
    ensures TryParse(Format(h)) == Some(h)
  {
    match h.parameter
    case None => TryParseSchemeOnly(h.scheme);
    case Some(p) => TryParseSchemeAndParameter(h.scheme, p);
  }
}
