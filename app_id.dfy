/** The relying party's AppId (FidoU2f/Models/FidoAppId.cs): the subset of
    section 3 of the FIDO AppID and Facet Specification that the class checks.
    An AppId is an absolute http or https URL without a path, and its text
    is kept without trailing slashes.

    Parsing a URL is the .NET `System.Uri` library's work and is not modelled:
    a parsed URI is given by the four properties the class reads. */
module FidoAppId {
  import opened Primitives

  /** What the class reads from a `System.Uri`: `IsAbsoluteUri`, `Scheme`,
      `AbsolutePath` and the text `ToString()` returns. */
  datatype ParsedUri = ParsedUri(isAbsolute: bool, scheme: string, absolutePath: string, text: string)

  /** `FormatException("FIDO App ID must be a URL prefix ...")`, or the
      `NullReferenceException` raised by reading a property of a null `Uri`. */
  datatype AppIdError = FormatError | NullReference

  predicate EndsWith(s: string, c: char) {
    |s| > 0 && s[|s| - 1] == c
  }

  /** Every character of `s` is `c` (vacuously so for the empty string). */
  ghost predicate AllOf(s: string, c: char) {
    forall i :: 0 <= i < |s| ==> s[i] == c
  }

  /** `String.TrimEnd(c)`: the longest prefix of `s` that does not end with `c`. */
  function TrimEnd(s: string, c: char): (r: string)
    ensures r <= s && !EndsWith(r, c) && AllOf(s[|r|..], c)
    decreases |s|
  {
    if EndsWith(s, c) then TrimEnd(s[..|s| - 1], c) else s
  }

  /** `String.TrimStart(c)`: the longest suffix of `s` that does not start with `c`. */
  function TrimStart(s: string, c: char): (r: string)
    ensures |r| <= |s| && r == s[|s| - |r|..]
    ensures r == [] || r[0] != c
    ensures AllOf(s[..|s| - |r|], c)
    decreases |s|
  {
    if |s| > 0 && s[0] == c then TrimStart(s[1..], c) else s
  }

  /** `String.Trim(c)`: `c` removed from both ends. Nothing is left exactly
      when `s` holds nothing but `c`. */
  function Trim(s: string, c: char): (r: string)
    ensures r == [] <==> AllOf(s, c)
  {
    var t := TrimEnd(s, c);
    var r := TrimStart(t, c);
    assert r == [] ==> AllOf(t, c) && t == [] && s == s[|t|..];
    assert AllOf(s, c) ==> t == [];
    r
  }

  /** `Char.ToLowerInvariant` on the ASCII letters, which are all a scheme may hold. */
  function LowerChar(ch: char): char {
    if 'A' <= ch <= 'Z' then (ch as int + 32) as char else ch
  }

  /** `String.ToLowerInvariant`, letter by letter. */
  function ToLowerInvariant(s: string): string {
    seq(|s|, i requires 0 <= i < |s| => LowerChar(s[i]))
  }

  /** The scheme test of `ValidateUri`: http and https in any letter case, and nothing else. */
  predicate IsWebScheme(scheme: string)
    ensures IsWebScheme(scheme) <==> MatchesIgnoringCase(scheme, "http") || MatchesIgnoringCase(scheme, "https")
  {
    LowerEqualsIffMatches(scheme, "http");
    LowerEqualsIffMatches(scheme, "https");
    var lower := ToLowerInvariant(scheme);
    lower == "http" || lower == "https"
  }

  /** `ValidateUri`: passes exactly when the scheme is http or https in any
      letter case and the path holds nothing but slashes; every rejection is a `FormatError`. */
  function ValidateUri(uri: ParsedUri): (r: Outcome<AppIdError>)
    ensures r == Pass <==>
      (MatchesIgnoringCase(uri.scheme, "http") || MatchesIgnoringCase(uri.scheme, "https")) && AllOf(uri.absolutePath, '/')
    ensures r.Fail? ==> r.error == FormatError
  {
    if !IsWebScheme(uri.scheme) then Fail(FormatError)
    else if Trim(uri.absolutePath, '/') != [] then Fail(FormatError)
    else Pass
  }

  /** A text with no trailing slash: the form in which an AppId is stored. */
  type CanonicalText = s: string | !EndsWith(s, '/')

  /** A validated AppId, holding the canonical text (the `_appId` field). */
  datatype AppId = AppId(value: CanonicalText) {
    /** `ToString()`: the stored canonical text, which trimming leaves alone. */
    function ToString(): (s: string)
      ensures !EndsWith(s, '/')
      ensures TrimEnd(s, '/') == s
    {
      value
    }
  }

  /** The constructor taking a `Uri` (`None` for null): relative URIs and
      failed validation are rejected, otherwise the URI text loses its trailing slashes. */
  function FromUri(uri: Option<ParsedUri>): (r: Result<AppId, AppIdError>)
    ensures uri.None? ==> r == Err(NullReference)
    ensures uri.Some? && !uri.value.isAbsolute ==> r == Err(FormatError)
    ensures r.Ok? ==> r.value.value <= uri.value.text && AllOf(uri.value.text[|r.value.value|..], '/')
  {
    match uri
    case None => Err(NullReference)
    case Some(u) =>
      if !u.isAbsolute then Err(FormatError)
      else match ValidateUri(u)
        case Fail(e) => Err(e)
        case Pass => Ok(AppId(TrimEnd(u.text, '/')))
  }

  /** The constructor taking a string. `parsed` is what `Uri.TryCreate(appId,
      UriKind.Absolute, ...)` produced: `None` when it returned false (a null
      string included). The absoluteness is the library's promise and is not checked again. */
  function FromString(parsed: Option<ParsedUri>): (r: Result<AppId, AppIdError>)
    ensures parsed.None? ==> r == Err(FormatError)
    ensures r.Err? ==> r.error == FormatError
    ensures r.Ok? ==> r.value.value <= parsed.value.text && AllOf(parsed.value.text[|r.value.value|..], '/')
  {
    match parsed
    case None => Err(FormatError)
    case Some(u) =>
      match ValidateUri(u)
      case Fail(e) => Err(e)
      case Pass => Ok(AppId(TrimEnd(u.text, '/')))
  }

  /** `s` is `lower` with any of its letters possibly in upper case
      (`lower` is written in lower-case ASCII letters). */
  ghost predicate MatchesIgnoringCase(s: string, lower: string) {
    |s| == |lower| &&
    forall i :: 0 <= i < |s| ==> s[i] == lower[i] || s[i] as int + 32 == lower[i] as int
  }

  /** An AppId as the checked subset of section 3 of the FIDO AppID and Facet
      Specification describes it, stated without the
      trimming and lower-casing the code uses: absolute, scheme http or https
      in any letter case, and a path of slashes only ("/" or empty among them). */
  ghost predicate Acceptable(u: ParsedUri) {
    && u.isAbsolute
    && (MatchesIgnoringCase(u.scheme, "http") || MatchesIgnoringCase(u.scheme, "https"))
    && AllOf(u.absolutePath, '/')
  }

  /** Lower-casing `s` gives the lower-case word `lower` exactly when `s`
      spells it in any mixture of cases. */
  lemma LowerEqualsIffMatches(s: string, lower: string)
    requires forall i :: 0 <= i < |lower| ==> 'a' <= lower[i] <= 'z'
    ensures ToLowerInvariant(s) == lower <==> MatchesIgnoringCase(s, lower)
  {
  }

  /** The `Uri` constructor builds an AppId exactly for acceptable URIs, and
      then stores the URI text without its trailing slashes. */
  lemma FromUriAcceptsExactly(uri: Option<ParsedUri>)
    ensures FromUri(uri).Ok? <==> uri.Some? && Acceptable(uri.value)
    ensures FromUri(uri).Ok? ==> FromUri(uri).value.ToString() == TrimEnd(uri.value.text, '/')
  {
  }

  /** The string constructor builds an AppId exactly when the text parses as
      an absolute URI that is acceptable. */
  lemma FromStringAcceptsExactly(parsed: Option<ParsedUri>)
    requires parsed.Some? ==> parsed.value.isAbsolute
    ensures FromString(parsed).Ok? <==> parsed.Some? && Acceptable(parsed.value)
  {
  }

  /** For an absolute URI both constructors agree, on the result and on the error. */
  lemma ConstructorsAgree(u: ParsedUri)
    requires u.isAbsolute
    ensures FromString(Some(u)) == FromUri(Some(u))
  {
  }

  /** Trimming a canonical text changes nothing: canonicalisation is idempotent. */
  lemma TrimEndIdempotent(s: string, c: char)
    ensures TrimEnd(TrimEnd(s, c), c) == TrimEnd(s, c)
  {
  }

  /** Slashes appended to a text do not change its trimmed form. */
  lemma {:induction false} TrimEndIgnoresTrailing(s: string, t: string, c: char)
    requires AllOf(t, c)
    ensures TrimEnd(s + t, c) == TrimEnd(s, c)
    decreases |t|
  {
    if t == [] {
      assert s + t == s;
    } else {
      var front := t[..|t| - 1];
      assert (s + t)[..|s + t| - 1] == s + front;
      TrimEndIgnoresTrailing(s, front, c);
    }
  }

  /** URIs that differ only in trailing slashes of their text give the same AppId. */
  lemma TrailingSlashesDoNotMatter(u: ParsedUri, slashes: string)
    requires AllOf(slashes, '/')
    ensures FromString(Some(u.(text := u.text + slashes))) == FromString(Some(u))
  {
    TrimEndIgnoresTrailing(u.text, slashes, '/');
  }

  /** "http://localhost", which `System.Uri` gives the path "/" and the text
      "http://localhost/", is a valid AppId, stored as "http://localhost". */
  lemma LocalhostIsValid()
    ensures FromString(Some(ParsedUri(true, "http", "/", "http://localhost/"))) == Ok(AppId("http://localhost"))
  {
    assert "http://localhost/"[..16] == "http://localhost";
    assert ToLowerInvariant("http") == "http";
  }

  /** A scheme other than http or https, and a URI with a path, are rejected. */
  lemma OtherSchemesAndPathsRejected()
    ensures FromString(Some(ParsedUri(true, "ftp", "/", "ftp://localhost/"))) == Err(FormatError)
    ensures FromString(Some(ParsedUri(true, "HTTPS", "/login", "https://localhost/login"))) == Err(FormatError)
  {
  }
}
