/** `normalizeUrl`: the form a task's external link is stored and opened in. */
module UrlUtil {
  import opened Wrappers
  import Text

  /** The test `/^https?:\/\//i`. */
  predicate HasHttpScheme(s: string) {
    Text.StartsWithIgnoringCase(s, "http://") || Text.StartsWithIgnoringCase(s, "https://")
  }

  /**
   * No link for a missing, empty or blank input; a trimmed input that already names an
   * http(s) scheme is kept as it is; any other input gets `https://` in front of its trimmed form.
   */
  function NormalizeUrl(u: Option<string>): (r: Option<string>)
    ensures r.None? <==> u.None? || Text.IsBlank(u.value)
    ensures r.Some? && HasHttpScheme(Text.Trim(u.value)) ==> r.value == Text.Trim(u.value)
    ensures r.Some? && !HasHttpScheme(Text.Trim(u.value)) ==> r.value == "https://" + Text.Trim(u.value)
  {
    if u.None? || u.value == [] then None
    else
      var s := Text.Trim(u.value);
      if s == [] then None
      else if HasHttpScheme(s) then Some(s)
      else Some("https://" + s)
  }

  /** Putting `https://` in front of a trimmed, non-empty text gives a trimmed link with a scheme. */
  lemma PrefixedHasScheme(s: string)
    requires s != [] && Text.IsTrimmed(s)
    ensures var x := "https://" + s; Text.IsTrimmed(x) && HasHttpScheme(x)
  {
    var x := "https://" + s;
    assert x[..8] == "https://";
    assert Text.StartsWithIgnoringCase(x, "https://");
    assert x[|x| - 1] == s[|s| - 1];
  }

  /** Every link that `NormalizeUrl` produces is trimmed, non-empty and starts with an http(s) scheme. */
  lemma NormalizedHasScheme(u: Option<string>)
    ensures var r := NormalizeUrl(u);
            r.Some? ==> r.value != [] && Text.IsTrimmed(r.value) && HasHttpScheme(r.value)
  {
    if NormalizeUrl(u).Some? {
      Text.TrimShape(u.value);
      var s := Text.Trim(u.value);
      if !HasHttpScheme(s) {
        PrefixedHasScheme(s);
      }
    }
  }

  /** Normalising a normalised link changes nothing. */
  lemma NormalizeIdempotent(u: Option<string>)
    ensures NormalizeUrl(NormalizeUrl(u)) == NormalizeUrl(u)
  {
    var r := NormalizeUrl(u);
    if r.Some? {
      NormalizedHasScheme(u);
      Text.TrimmedFixpoint(r.value);
    }
  }
}
