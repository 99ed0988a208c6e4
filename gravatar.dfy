/** isGravatarURL: whether an avatar URL points at the Gravatar service. */
module Gravatar {
  import opened Common

  /** `s.startsWith(prefix)`, compared code point by code point. */
  function StartsWith(s: Text, prefix: Text): (r: bool)
    ensures r <==> |prefix| <= |s| && s[..|prefix|] == prefix
  {
    prefix == [] || (s != [] && s[0] == prefix[0] && StartsWith(s[1..], prefix[1..]))
  }

  /**
   * isGravatarURL. GRAVATAR_BASE_URL is defined outside the avatar functions, so its value is the
   * parameter `gravatarBaseUrl`. `None` is an undefined url, which the default parameter turns
   * into ''; a null url is not modelled.
   */
  function IsGravatarUrl(gravatarBaseUrl: Text, url: Option<Text>): (r: bool)
    ensures r <==> gravatarBaseUrl <= url.GetOr([])
    ensures url.None? ==> (r <==> gravatarBaseUrl == [])
  {
    StartsWith(url.GetOr([]), gravatarBaseUrl)
  }

  /** Every URL built by appending to the base URL is recognised, and only such URLs are. */
  lemma GravatarUrlIsBasePlusPath(gravatarBaseUrl: Text, url: Text)
    ensures IsGravatarUrl(gravatarBaseUrl, Some(url)) <==>
      exists path :: url == gravatarBaseUrl + path
  {
    if IsGravatarUrl(gravatarBaseUrl, Some(url)) {
      var path := url[|gravatarBaseUrl|..];
      assert url == gravatarBaseUrl + path;
    }
  }
}
