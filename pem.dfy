/** `certToPEM`: the chunking of a certificate into lines of at most 64
    characters, and the certificate text the function actually returns. */
module Pem {
  import opened Wrappers
  import opened AuthErrors
  import opened JsText

  /** The longest line `certToPEM` produces. */
  const LineWidth: nat := 64

  /** The characters a regular-expression `.` does not match. */
  predicate IsLineTerminator(c: char)
    ensures IsLineTerminator(c) <==> c in {'\n', '\r', '\U{2028}', '\U{2029}'}
  {
    c == '\n' || c == '\r' || c == '\U{2028}' || c == '\U{2029}'
  }

  predicate NoLineTerminator(t: string) {
    forall j :: 0 <= j < |t| ==> !IsLineTerminator(t[j])
  }

  /** `t` with its line terminators removed. */
  function WithoutLineTerminators(t: string): string {
    if |t| == 0 then ""
    else if IsLineTerminator(t[0]) then WithoutLineTerminators(t[1..])
    else [t[0]] + WithoutLineTerminators(t[1..])
  }

  /** The number of leading characters of `t` that are not line terminators. */
  function RunLength(t: string): (n: nat)
    ensures n <= |t|
    ensures NoLineTerminator(t[..n])
    ensures n < |t| ==> IsLineTerminator(t[n])
  {
    if |t| == 0 || IsLineTerminator(t[0]) then 0
    else
      var n := 1 + RunLength(t[1..]);
      assert t[..n] == [t[0]] + t[1..][..n - 1];
      n
  }

  /** The length of the match that starts at the front of `t`. */
  function PieceLength(t: string): nat {
    if RunLength(t) < LineWidth then RunLength(t) else LineWidth
  }

  /** `t.match(/.{1,64}/g)`, with `[]` for the `null` it gives when nothing
      matches: scanning left to right, every run of non-terminator characters
      is cut greedily into pieces of at most 64 characters. */
  function Matches(t: string): (r: seq<string>)
    ensures forall i :: 0 <= i < |r| ==> 1 <= |r[i]| <= LineWidth && NoLineTerminator(r[i])
    decreases |t|
  {
    if |t| == 0 then []
    else if IsLineTerminator(t[0]) then Matches(t[1..])
    else
      var k := PieceLength(t);
      assert NoLineTerminator(t[..k]) by {
        assert t[..k] == t[..RunLength(t)][..k];
      }
      [t[..k]] + Matches(t[k..])
  }

  /** The pieces, read in order, are the text without its line terminators. */
  lemma {:induction false} MatchesCoverText(t: string)
    ensures Concat(Matches(t)) == WithoutLineTerminators(t)
    decreases |t|
  {
    if |t| > 0 {
      if IsLineTerminator(t[0]) {
        MatchesCoverText(t[1..]);
      } else {
        var n := RunLength(t);
        var k := if n < LineWidth then n else LineWidth;
        MatchesCoverText(t[k..]);
        WithoutLineTerminatorsOfRun(t, k);
        assert Matches(t) == [t[..k]] + Matches(t[k..]);
        assert Concat([t[..k]] + Matches(t[k..])) == t[..k] + Concat(Matches(t[k..]));
      }
    }
  }

  /** No match spans a line terminator: the matches of a text cut at a
      terminator are those of the part before it followed by those of the
      part after it. */
  lemma {:induction false} MatchesSplitAtTerminator(a: string, c: char, b: string)
    requires IsLineTerminator(c)
    ensures Matches(a + [c] + b) == Matches(a) + Matches(b)
    decreases |a|
  {
    var t := a + [c] + b;
    if |a| == 0 {
      assert t == [c] + b && t[1..] == b;
    } else if IsLineTerminator(a[0]) {
      assert t[0] == a[0] && t[1..] == a[1..] + [c] + b;
      MatchesSplitAtTerminator(a[1..], c, b);
    } else {
      RunLengthStopsAtTerminator(a, c, b);
      var k := PieceLength(a);
      assert PieceLength(t) == k;
      assert t[0] == a[0];
      assert t[..k] == a[..k] by {
        assert k <= |a|;
      }
      assert t[k..] == a[k..] + [c] + b;
      MatchesSplitAtTerminator(a[k..], c, b);
    }
  }

  /** A run of non-terminators never crosses a terminator. */
  lemma {:induction false} RunLengthStopsAtTerminator(a: string, c: char, b: string)
    requires IsLineTerminator(c)
    ensures RunLength(a + [c] + b) == RunLength(a)
    decreases |a|
  {
    var t := a + [c] + b;
    if |a| == 0 {
      assert t[0] == c;
    } else {
      assert t[0] == a[0] && t[1..] == a[1..] + [c] + b;
      if !IsLineTerminator(a[0]) {
        RunLengthStopsAtTerminator(a[1..], c, b);
      }
    }
  }

  /** A prefix free of line terminators survives `WithoutLineTerminators` whole. */
  lemma {:induction false} WithoutLineTerminatorsOfRun(t: string, k: nat)
    requires k <= |t| && NoLineTerminator(t[..k])
    ensures WithoutLineTerminators(t) == t[..k] + WithoutLineTerminators(t[k..])
    decreases k
  {
    if k > 0 {
      assert t[1..][..k - 1] == t[1..k];
      assert NoLineTerminator(t[1..][..k - 1]) by {
        forall j | 0 <= j < k - 1 ensures !IsLineTerminator(t[1..k][j]) {
          assert t[1..k][j] == t[..k][j + 1];
        }
      }
      assert !IsLineTerminator(t[..k][0]);
      WithoutLineTerminatorsOfRun(t[1..], k - 1);
      assert t[1..][k - 1..] == t[k..];
      assert [t[0]] + t[1..k] == t[..k];
    }
  }

  /** `match` finds nothing exactly when every character is a line terminator. */
  lemma NoMatchesIff(t: string)
    ensures Matches(t) == [] <==> forall i :: 0 <= i < |t| ==> IsLineTerminator(t[i])
  {
    MatchesCoverText(t);
    WithoutLineTerminatorsEmptyIff(t);
    if Matches(t) != [] {
      assert |Concat(Matches(t))| >= |Matches(t)[0]| >= 1;
    }
  }

  lemma {:induction false} WithoutLineTerminatorsEmptyIff(t: string)
    ensures WithoutLineTerminators(t) == "" <==> forall i :: 0 <= i < |t| ==> IsLineTerminator(t[i])
    decreases |t|
  {
    if |t| > 0 {
      WithoutLineTerminatorsEmptyIff(t[1..]);
      assert forall i :: 1 <= i < |t| ==> t[i] == t[1..][i - 1];
    }
  }

  /** On text without line terminators every piece but the last is exactly
      64 characters long. */
  lemma {:induction false} MatchesAreFullWidth(t: string)
    requires NoLineTerminator(t)
    ensures forall i :: 0 <= i < |Matches(t)| - 1 ==> |Matches(t)[i]| == LineWidth
    decreases |t|
  {
    if |t| > 0 {
      assert !IsLineTerminator(t[0]);
      assert RunLength(t) == |t|;
      if |t| > LineWidth {
        assert NoLineTerminator(t[LineWidth..]) by {
          forall j | 0 <= j < |t[LineWidth..]| ensures !IsLineTerminator(t[LineWidth..][j]) {
            assert t[LineWidth..][j] == t[j + LineWidth];
          }
        }
        MatchesAreFullWidth(t[LineWidth..]);
        assert Matches(t) == [t[..LineWidth]] + Matches(t[LineWidth..]);
      } else {
        assert t[..|t|] == t;
        assert Matches(t) == [t] + Matches(t[|t|..]);
        assert Matches(t[|t|..]) == [];
      }
    }
  }

  /** Line 116: `cert.match(/.{1,64}/g).join('\n')`; `None` when `match`
      gives `null` and `.join` throws. On success the lines of the result are
      the pieces of the certificate. */
  function ChunkLines(cert: string): (r: Option<string>)
    ensures r.None? <==> Matches(cert) == []
    ensures r.Some? ==> Split(r.value, '\n') == Matches(cert)
  {
    var pieces := Matches(cert);
    if pieces == [] then None
    else
      assert forall j :: 0 <= j < |pieces| ==> '\n' !in pieces[j] by {
        forall j | 0 <= j < |pieces| ensures '\n' !in pieces[j] {
          assert NoLineTerminator(pieces[j]);
        }
      }
      SplitJoin(pieces, '\n');
      Some(Join(pieces, '\n'))
  }

  /** The certificates `certToPEM` can return. There is only one: the
      certificate written out in its body at lines 117-135. */
  datatype Certificate = EmbeddedCertificate {

    /** The PEM text of the certificate, exactly as the template literal
        spells it: line breaks, indentation and all. */
    function Text(): string {
      "-----BEGIN CERTIFICATE-----\n" +
      "  MIIDDTCCAfWgAwIBAgIJDdad1m8Xl5v4MA0GCSqGSIb3DQEBCwUAMCQxIjAgBgNV\n" +
      "  BAMTGWRldi1oNXdjMjZlcC51cy5hdXRoMC5jb20wHhcNMjAwOTIxMjA0NTI5WhcN\n" +
      "  MzQwNTMxMjA0NTI5WjAkMSIwIAYDVQQDExlkZXYtaDV3YzI2ZXAudXMuYXV0aDAu\n" +
      "  Y29tMIIBIjANBgkqhkiG9w0BAQEFAAOCAQ8AMIIBCgKCAQEAruNUu0p3UVJhWD/A\n" +
      "  iR6okweYmt85WHzAj9ntEXTzzv2nn+mYDP/nOEu/5AqMLn5ctbfpvoC/V+O0YlDb\n" +
      "  Y0nOg+ntW5XYhM25FBJItTvbPxXNOBl0kHTQQCSy9SHxvaZKrregLqgrtfkbneVB\n" +
      "  lJN+9Gx4i6syaIK9PbejOG4zwxI/hwlOsjNKVwiftGMc7EzyKPnl4S0Cqib6vtCd\n" +
      "  XcZJRlhmCDazn920tgDoRnUZHjO0pORp9G0ZlkwlT0DkE+XQWv5uLNBzZ1dh1aJU\n" +
      "  KHzw+0Xdbp0CSwm+Z3xfhrfK8zYkO2BjKE40cqvreHEgUWcDOUAAKpwEeLusdkav\n" +
      "  xQ9D4QIDAQABo0IwQDAPBgNVHRMBAf8EBTADAQH/MB0GA1UdDgQWBBTOYlJeILi7\n" +
      "  ZR7bYzI6i9iJF4+G3TAOBgNVHQ8BAf8EBAMCAoQwDQYJKoZIhvcNAQELBQADggEB\n" +
      "  AGH8BmoXMPqcUxJ4R6edimHQDTSRcny3aczm/Nv6Mxgmw6KuJRtl0GytPRABvvva\n" +
      "  z7t4n0zI4sDF1bObAK5S5z1DYwWJES5scAG/gtrpB9wB2pdPplHorzdPzD6OeQX/\n" +
      "  m1OrroE6sb/1eZwYUWX50F/IuhXR/OiS4l2r7xj15cSJ+dWM9HUEVTFY/U8I0UsK\n" +
      "  mCtYNoUr8OGkrxoDnQMSsgG5YLDNXDo3iLdUdUikzo7930S1ufJiKeVV3k9wjoBG\n" +
      "  f6T4FLTQjycWfrSu/TsjmTxxYPGdZ/XUiWDLWZ3r/tJy2rFmoPMDMOZXD5KGy9Gi\n" +
      "  XvmbfzkTbS3S70+oPY3YjVk=\n" +
      "  -----END CERTIFICATE-----"
    }
  }

  /** `certToPEM`: throws when line 116 does, and otherwise discards the
      chunked text and returns the embedded certificate. */
  function CertToPem(cert: string): (r: Result<Certificate, AuthError>)
    ensures r.Success? <==> exists i :: 0 <= i < |cert| && !IsLineTerminator(cert[i])
    ensures r.Success? ==> r.value == EmbeddedCertificate
    ensures r.Failure? ==> r.error == CertificateNotMatched
  {
    NoMatchesIff(cert);
    match ChunkLines(cert)
    case None => Failure(CertificateNotMatched)
    case Some(_) => Success(EmbeddedCertificate)
  }

  /** The result does not depend on the certificate passed in. */
  lemma CertToPemIgnoresInput(c1: string, c2: string)
    requires CertToPem(c1).Success? && CertToPem(c2).Success?
    ensures CertToPem(c1) == CertToPem(c2)
  {
  }

  /** An empty certificate makes line 116 throw. */
  lemma EmptyCertificateFails()
    ensures CertToPem("") == Failure(CertificateNotMatched)
  {
  }
}
