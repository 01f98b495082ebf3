/** Reading the access token out of the redirect URL of the OAuth 2.0
    implicit grant, whose parameters arrive in the URL fragment (section 4.2.2
    of RFC 6749). Two readers exist: the regular-expression reader of the
    authorization strategies, and the split-based reader inside the client's
    own `authorize`. They disagree when the fragment names the token twice. */
module Auth {
  import opened Common
  import opened Strings

  /** `new URL(u).hash`: `#` and the fragment, or empty when there is no
      fragment or it is empty. */
  function Hash(url: string): (h: string)
    ensures '#' !in url ==> h == ""
    ensures '#' in url && IndexOf(url, '#') + 1 < |url| ==> h == "#" + url[IndexOf(url, '#') + 1..]
    ensures '#' in url && IndexOf(url, '#') + 1 == |url| ==> h == ""
  {
    var i := IndexOf(url, '#');
    if i == -1 || i + 1 == |url| then "" else "#" + url[i + 1..]
  }

  const TOKEN_KEY: string := "access_token="

  /** `access_token=` occurs at `i` and is followed by at least one character
      other than `&`: the pattern `access_token=([^&]+)` matches there. */
  predicate MatchAt(h: string, i: int)
  {
    0 <= i && i + |TOKEN_KEY| < |h| && h[i..i + |TOKEN_KEY|] == TOKEN_KEY && h[i + |TOKEN_KEY|] != '&'
  }

  /** The leftmost match position at or after `from`. */
  function FirstMatch(h: string, from: nat): (r: Option<nat>)
    ensures r.Some? ==> from <= r.value && MatchAt(h, r.value)
    ensures r.Some? ==> forall j :: from <= j < r.value ==> !MatchAt(h, j)
    ensures r.None? ==> forall j :: from <= j ==> !MatchAt(h, j)
    decreases |h| - from
  {
    if from + |TOKEN_KEY| >= |h| then None
    else if MatchAt(h, from) then Some(from)
    else FirstMatch(h, from + 1)
  }

  /** The length of the leading run of characters other than `&`. */
  function AmpFreeRun(s: string): (k: nat)
    ensures k <= |s| && '&' !in s[..k]
    ensures k < |s| ==> s[k] == '&'
  {
    if |s| == 0 || s[0] == '&' then 0
    else
      var k := 1 + AmpFreeRun(s[1..]);
      assert s[..k] == [s[0]] + s[1..][..k - 1];
      k
  }

  /** The match starting at `i` is the leftmost one. */
  predicate IsFirstMatch(h: string, i: int)
  {
    MatchAt(h, i) && forall j :: 0 <= j < i ==> !MatchAt(h, j)
  }

  /** `t` sits at `start` in `h` and runs up to the next `&` or the end. */
  predicate RunsToAmp(h: string, start: int, t: string)
  {
    0 <= start && start + |t| <= |h| && h[start..start + |t|] == t &&
    (start + |t| == |h| || h[start + |t|] == '&')
  }

  /** `hash.match(/access_token=([^&]+)/)[1]`: the capture of the leftmost
      match, the longest `&`-free text after `access_token=`. */
  function MatchToken(h: string): (r: Option<string>)
    ensures r.None? <==> forall i :: !MatchAt(h, i)
    ensures r.Some? ==> |r.value| > 0 && '&' !in r.value
    ensures r.Some? ==> exists i :: IsFirstMatch(h, i) && RunsToAmp(h, i + |TOKEN_KEY|, r.value)
  {
    match FirstMatch(h, 0)
    case None => None
    case Some(i) =>
      var start := i + |TOKEN_KEY|;
      var rest := h[start..];
      var k := AmpFreeRun(rest);
      assert rest[..k] == h[start..start + k];
      assert RunsToAmp(h, start, rest[..k]);
      assert IsFirstMatch(h, i);
      Some(rest[..k])
  }

  /** `tokenFromRedirectUrl`: `None` stands for a falsy URL. The single reply
      models the rule that exactly one of the two callbacks fires. */
  function TokenFromRedirectUrl(url: Option<string>): (r: Reply<string>)
    ensures !Truthy(url) ==> r == Err(Reason("Authorization failed"))
    ensures Truthy(url) ==> (r.Ok? <==> exists i :: MatchAt(Hash(url.value), i))
    ensures Truthy(url) && r.Err? ==> r == Err(Reason("Access token not found in redirect URL"))
    ensures r.Ok? ==> Truthy(url) && Some(r.value) == MatchToken(Hash(url.value))
  {
    if !Truthy(url) then Err(Reason("Authorization failed"))
    else
      match MatchToken(Hash(url.value))
      case None => Err(Reason("Access token not found in redirect URL"))
      case Some(t) => Ok(t)
  }

  // ---------------------------------------------------------------------
  // The split-based reader in the client's `authorize`

  /** `redirectUrl.substring(redirectUrl.indexOf('#') + 1)`: the text after
      the first `#`, or the whole URL when there is none. */
  function ParametersText(url: string): (p: string)
    ensures '#' !in url ==> p == url
    ensures '#' in url ==>
      && |p| < |url|
      && url[|url| - |p| - 1] == '#'
      && '#' !in url[..|url| - |p| - 1]
      && url[|url| - |p|..] == p
  {
    var i := IndexOf(url, '#');
    url[i + 1..]
  }

  /** `parameter.split('=')[0]`. */
  function KeyOf(parameter: string): string
  {
    Split(parameter, '=')[0]
  }

  /** `parameter.split('=')[1]`, undefined when there is no `=`. */
  function ValueOf(parameter: string): Option<string>
  {
    var kv := Split(parameter, '=');
    if |kv| >= 2 then Some(kv[1]) else None
  }

  predicate IsTokenParameter(parameter: string)
  {
    KeyOf(parameter) == "access_token"
  }

  /** Parameter `k` is the last one whose key is `access_token`. */
  predicate IsLastTokenParameter(ps: seq<string>, k: int)
  {
    0 <= k < |ps| && IsTokenParameter(ps[k]) && forall m :: k < m < |ps| ==> !IsTokenParameter(ps[m])
  }

  /** The loop over the `&`-separated parameters: every parameter whose key is
      exactly `access_token` overwrites the token, so the last one decides;
      `last` is its index, or -1 when there is none. */
  method ScanParameters(ps: seq<string>) returns (token: Option<string>, last: int)
    ensures last == -1 <==> forall k :: 0 <= k < |ps| ==> !IsTokenParameter(ps[k])
    ensures last == -1 ==> token == None
    ensures last != -1 ==> IsLastTokenParameter(ps, last) && token == ValueOf(ps[last])
  {
    token := None;
    last := -1;
    var i := 0;
    while i < |ps|
      invariant 0 <= i <= |ps| && -1 <= last < i
      invariant last == -1 ==> token == None && forall k :: 0 <= k < i ==> !IsTokenParameter(ps[k])
      invariant last >= 0 ==> IsTokenParameter(ps[last]) && token == ValueOf(ps[last])
      invariant forall m :: last < m < i ==> !IsTokenParameter(ps[m])
    {
      if KeyOf(ps[i]) == "access_token" {
        token := ValueOf(ps[i]);
        last := i;
      }
      i := i + 1;
    }
  }

  /** The parameters the client's `authorize` scans. */
  function Parameters(url: string): seq<string>
  {
    Split(ParametersText(url), '&')
  }

  /** The client's `authorize` callback: a runtime error message wins, a falsy
      URL fails, otherwise the last `access_token` parameter must carry a
      non-empty value. */
  method Authorize(lastError: Option<string>, redirectUrl: Option<string>) returns (r: Reply<string>)
    ensures lastError.Some? ==> r == Err(Reason(lastError.value))
    ensures lastError.None? && !Truthy(redirectUrl) ==> r == Err(Reason("Authorization failed"))
    ensures r.Ok? ==>
      && lastError.None? && Truthy(redirectUrl) && |r.value| > 0
      && exists k :: IsLastTokenParameter(Parameters(redirectUrl.value), k) &&
           ValueOf(Parameters(redirectUrl.value)[k]) == Some(r.value)
    ensures lastError.None? && Truthy(redirectUrl) && r.Err? ==>
      && r == Err(Reason("Issuing Access token failed"))
      && forall k :: IsLastTokenParameter(Parameters(redirectUrl.value), k) ==>
           !Truthy(ValueOf(Parameters(redirectUrl.value)[k]))
  {
    if lastError.Some? {
      return Err(Reason(lastError.value));
    }
    if !Truthy(redirectUrl) {
      return Err(Reason("Authorization failed"));
    }
    var ps := Parameters(redirectUrl.value);
    var token, last := ScanParameters(ps);
    if Truthy(token) {
      r := Ok(token.value);
    } else {
      r := Err(Reason("Issuing Access token failed"));
      forall k | IsLastTokenParameter(ps, k) ensures !Truthy(ValueOf(ps[k])) {
        assert k == last;
      }
    }
  }

  // ---------------------------------------------------------------------
  // The two readers compared

  /** A token placed in the query string is not seen by the fragment reader. */
  lemma QueryTokenIgnored()
    ensures TokenFromRedirectUrl(Some("https://x/?access_token=abc")) ==
      Err(Reason("Access token not found in redirect URL"))
  {
    assert '#' !in "https://x/?access_token=abc";
  }

  /** The number of leading characters other than `&` stops at the first `&`. */
  lemma {:induction false} AmpFreeRunPrefix(a: string, rest: string)
    requires '&' !in a && |rest| > 0 && rest[0] == '&'
    ensures AmpFreeRun(a + rest) == |a|
    decreases |a|
  {
    if |a| == 0 {
      assert a + rest == rest;
    } else {
      assert (a + rest)[0] == a[0];
      assert (a + rest)[1..] == a[1..] + rest;
      AmpFreeRunPrefix(a[1..], rest);
    }
  }

  /** A redirect URL whose fragment names the token twice, `a` first and `b`
      second. */
  function TwiceNamed(base: string, a: string, b: string): string
  {
    base + "#" + TOKEN_KEY + a + "&" + TOKEN_KEY + b
  }

  /** Where each reader starts looking in such a URL. */
  lemma TwiceNamedFragment(base: string, a: string, b: string)
    requires '#' !in base
    ensures Hash(TwiceNamed(base, a, b)) == "#" + TOKEN_KEY + a + "&" + TOKEN_KEY + b
    ensures ParametersText(TwiceNamed(base, a, b)) == TOKEN_KEY + a + "&" + TOKEN_KEY + b
  {
    var frag := TOKEN_KEY + a + "&" + TOKEN_KEY + b;
    assert TwiceNamed(base, a, b) == base + ['#'] + frag;
    assert "#" + TOKEN_KEY + a + "&" + TOKEN_KEY + b == "#" + frag;
    HashOf(base, frag);
  }

  /** The fragment of a URL with one `#` followed by a non-empty text. */
  lemma HashOf(base: string, frag: string)
    requires '#' !in base && |frag| > 0
    ensures Hash(base + ['#'] + frag) == "#" + frag
    ensures ParametersText(base + ['#'] + frag) == frag
  {
    IndexOfFirst(base, '#', frag);
    assert (base + ['#'] + frag)[|base| + 1..] == frag;
  }

  lemma FirstMatchAfterHash(a: string, rest: string)
    requires |a| > 0 && a[0] != '&'
    ensures FirstMatch("#" + TOKEN_KEY + a + rest, 0) == Some(1)
  {
    var h := "#" + TOKEN_KEY + a + rest;
    assert h[1..14] == TOKEN_KEY;
    assert h[14] == a[0];
    assert MatchAt(h, 1);
    assert !MatchAt(h, 0) by { assert h[0..13][0] == '#'; }
    assert FirstMatch(h, 0) == FirstMatch(h, 1);
  }

  lemma TokenAfterKey(a: string, tail: string)
    requires '&' !in a && |tail| > 0 && tail[0] == '&'
    ensures var rest := ("#" + TOKEN_KEY + a + tail)[1 + |TOKEN_KEY|..];
      rest[..AmpFreeRun(rest)] == a
  {
    var rest := ("#" + TOKEN_KEY + a + tail)[1 + |TOKEN_KEY|..];
    assert rest == a + tail;
    AmpFreeRunPrefix(a, tail);
    assert (a + tail)[..|a|] == a;
  }

  /** The regular-expression reader returns the first token. */
  lemma FirstTokenWins(base: string, a: string, b: string)
    requires '#' !in base && |a| > 0 && '&' !in a
    ensures TokenFromRedirectUrl(Some(TwiceNamed(base, a, b))) == Ok(a)
  {
    var url := TwiceNamed(base, a, b);
    var tail := "&" + TOKEN_KEY + b;
    var h := "#" + TOKEN_KEY + a + tail;
    assert Hash(url) == h by {
      TwiceNamedFragment(base, a, b);
    }
    var start := 1 + |TOKEN_KEY|;
    assert FirstMatch(h, 0) == Some(1) by {
      FirstMatchAfterHash(a, tail);
    }
    assert h[start..][..AmpFreeRun(h[start..])] == a by {
      TokenAfterKey(a, tail);
    }
    MatchTokenAt(h, 1, a);
    assert |url| > 0 by {
      assert url[|base|] == '#';
    }
  }

  /** The capture of a first match at `i`. */
  lemma MatchTokenAt(h: string, i: nat, v: string)
    requires FirstMatch(h, 0) == Some(i) && i + |TOKEN_KEY| <= |h|
    requires var rest := h[i + |TOKEN_KEY|..]; rest[..AmpFreeRun(rest)] == v
    ensures MatchToken(h) == Some(v)
  {
  }

  lemma KeyChars()
    ensures '&' !in TOKEN_KEY && '#' !in TOKEN_KEY
    ensures "access_token" + "=" == TOKEN_KEY
  {
  }

  lemma SplitParameters(a: string, b: string)
    requires '&' !in a && '&' !in b
    ensures Split(TOKEN_KEY + a + "&" + TOKEN_KEY + b, '&') == [TOKEN_KEY + a, TOKEN_KEY + b]
  {
    var k := TOKEN_KEY;
    KeyChars();
    var ka, kb := k + a, k + b;
    assert k + a + "&" + k + b == ka + "&" + kb;
    var ps := [ka, kb];
    assert Join(ps[1..], "&") == kb;
    assert Join(ps, "&") == ka + "&" + kb;
    assert '&' !in ka && '&' !in kb;
    SplitJoin(ps, '&');
  }

  lemma SplitTokenParameter(b: string)
    requires '=' !in b
    ensures Split(TOKEN_KEY + b, '=') == ["access_token", b]
  {
    var kv := ["access_token", b];
    KeyChars();
    assert '=' !in kv[0];
    SplitJoin(kv, '=');
    assert Join(kv, "=") == TOKEN_KEY + b;
  }

  /** The parameters the split-based reader sees in such a URL. */
  lemma TwiceNamedParameters(base: string, a: string, b: string)
    requires '#' !in base && '&' !in a && '&' !in b && '=' !in b
    ensures Parameters(TwiceNamed(base, a, b)) == [TOKEN_KEY + a, TOKEN_KEY + b]
    ensures IsLastTokenParameter(Parameters(TwiceNamed(base, a, b)), 1)
    ensures ValueOf(Parameters(TwiceNamed(base, a, b))[1]) == Some(b)
  {
    TwiceNamedFragment(base, a, b);
    SplitParameters(a, b);
    SplitTokenParameter(b);
  }

  /** The split-based reader returns the last token, so the two readers of
      the same redirect URL disagree. */
  method LastTokenWins(base: string, a: string, b: string) returns (r: Reply<string>)
    requires '#' !in base && '&' !in a && |b| > 0 && '&' !in b && '=' !in b
    ensures r == Ok(b)
  {
    var url := TwiceNamed(base, a, b);
    TwiceNamedParameters(base, a, b);
    assert url[|base|] == '#';
    r := AuthorizeLastToken(url, 1, b);
  }

  /** With no runtime error, the callback accepts exactly the value of the
      last token parameter when that value is non-empty. */
  method AuthorizeLastToken(url: string, k: int, v: string) returns (r: Reply<string>)
    requires |url| > 0 && |v| > 0
    requires IsLastTokenParameter(Parameters(url), k) && ValueOf(Parameters(url)[k]) == Some(v)
    ensures r == Ok(v)
  {
    var ps := Parameters(url);
    r := Authorize(None, Some(url));
    assert r.Ok? by {
      assert Truthy(ValueOf(ps[k]));
    }
    var j :| IsLastTokenParameter(ps, j) && ValueOf(ps[j]) == Some(r.value);
    LastTokenUnique(ps, j, k);
  }

  /** At most one index is the last token parameter. */
  lemma LastTokenUnique(ps: seq<string>, j: int, k: int)
    requires IsLastTokenParameter(ps, j) && IsLastTokenParameter(ps, k)
    ensures j == k
  {
  }
}
