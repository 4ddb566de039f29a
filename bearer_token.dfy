/** Extraction of the bearer token from an `Authorization` header value. */
module BearerToken {
  import opened Wrappers
  import opened AuthErrors
  import opened JsText

  /** The scheme every accepted header starts with, compared after lower-casing. */
  const Scheme: string := "bearer "

  /** `t` is the field of `h` that follows the scheme: the first space of `h`
      closes the scheme, and `t` runs from there to the next space, or to the
      end when there is none. */
  ghost predicate IsTokenField(h: string, t: string) {
    && |h| >= |Scheme|
    && h[6] == ' ' && ' ' !in h[..6]
    && var rest := h[|Scheme|..];
       t <= rest && ' ' !in t && (|t| == |rest| || rest[|t|] == ' ')
  }

  /** The scheme test accepts exactly the headers whose first seven
      characters are "bearer " with any of its letters in upper case. */
  lemma SchemeTestIsAsciiCaseInsensitive(h: string)
    ensures StartsWith(Lower(h), Scheme) <==>
      |h| >= |Scheme| && forall i :: 0 <= i < |Scheme| ==>
        h[i] == Scheme[i] || (Scheme[i] != ' ' && h[i] as int == Scheme[i] as int - 32)
  {
    StartsWithLowerIsCaseInsensitive(h, Scheme);
  }

  /** An accepted header has a space right after its scheme and none inside it. */
  lemma AcceptedSchemeSpaces(h: string)
    requires StartsWith(Lower(h), Scheme)
    ensures |h| >= |Scheme| && h[6] == ' ' && ' ' !in h[..6]
  {
    var low := Lower(h);
    assert low[..7] == Scheme;
    forall j | 0 <= j < 7
      ensures (j == 6) == (h[j] == ' ')
    {
      assert low[j] == low[..7][j] == Scheme[j];
      LowerCharSpace(h[j]);
    }
    assert forall j :: 0 <= j < 6 ==> h[..6][j] == h[j];
  }

  /** So the second space-separated field of an accepted header is the first
      field after the scheme. */
  lemma AcceptedHeaderFields(h: string)
    requires StartsWith(Lower(h), Scheme)
    ensures |Split(h, ' ')| >= 2
    ensures Split(h, ' ')[1] == Split(h[|Scheme|..], ' ')[0]
  {
    AcceptedSchemeSpaces(h);
    SplitAtFirstSeparator(h, ' ', 6);
  }

  /** `getToken`: rejects an absent or empty header, then one that does not
      start with "bearer " in any casing, and otherwise returns the second
      space-separated field of the header. */
  function GetToken(authHeader: Option<string>): (r: Result<string, AuthError>)
    ensures r == Failure(NoAuthenticationHeader) <==> authHeader.None? || authHeader.value == ""
    ensures r == Failure(InvalidAuthenticationHeader) <==>
      authHeader.Some? && authHeader.value != "" && !StartsWith(Lower(authHeader.value), Scheme)
    ensures r.Failure? ==> r.error in {NoAuthenticationHeader, InvalidAuthenticationHeader}
    ensures r.Success? ==> IsTokenField(authHeader.value, r.value)
  {
    if authHeader.None? || authHeader.value == "" then
      Failure(NoAuthenticationHeader)
    else if !StartsWith(Lower(authHeader.value), Scheme) then
      Failure(InvalidAuthenticationHeader)
    else
      var h := authHeader.value;
      AcceptedSchemeSpaces(h);
      AcceptedHeaderFields(h);
      FirstField(h[|Scheme|..], ' ');
      Success(Split(h, ' ')[1])
  }

  /** The token field of a header is determined by the header. */
  lemma TokenFieldUnique(h: string, t1: string, t2: string)
    requires IsTokenField(h, t1) && IsTokenField(h, t2)
    ensures t1 == t2
  {
  }

  /** The scheme is compared case-insensitively: two headers that differ only
      in the casing of their first seven characters get the same outcome. */
  lemma SchemeCaseInsensitive(h1: string, h2: string)
    requires |h1| == |h2| >= |Scheme|
    requires Lower(h1[..7]) == Lower(h2[..7])
    requires h1[7..] == h2[7..]
    ensures GetToken(Some(h1)) == GetToken(Some(h2))
  {
    assert Lower(h1)[..7] == Lower(h1[..7]);
    assert Lower(h2)[..7] == Lower(h2[..7]);
    var r1, r2 := GetToken(Some(h1)), GetToken(Some(h2));
    if r1.Success? && r2.Success? {
      TokenFieldUnique(h1, r1.value, r2.value);
    }
  }

  /** The returned token never contains a space. */
  lemma TokenHasNoSpace(authHeader: Option<string>)
    requires GetToken(authHeader).Success?
    ensures ' ' !in GetToken(authHeader).value
  {
  }

  /** Two spaces after the scheme yield the empty token rather than an error. */
  lemma DoubleSpaceYieldsEmptyToken()
    ensures GetToken(Some("Bearer  x")) == Success("")
  {
    var h := "Bearer  x";
    assert Lower(h)[..7] == Scheme;
  }

  /** A bare scheme yields the empty token rather than an error. */
  lemma BareSchemeYieldsEmptyToken()
    ensures GetToken(Some("Bearer ")) == Success("")
  {
    assert Lower("Bearer ")[..7] == Scheme;
  }
}
