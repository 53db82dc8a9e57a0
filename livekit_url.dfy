/**
 * The alternate WebSocket URL tried after a failed LiveKit connection:
 * `wsUrl.endsWith('/rtc') ? wsUrl.replace(/\/rtc$/, '') : `${wsUrl.replace(/\/$/, '')}/rtc``.
 * A JavaScript regular expression anchored with `$` (no `m` flag) matches only at the very
 * end of the string, so each `replace` removes one trailing occurrence or nothing.
 */
module LivekitUrl {

  const Rtc := "/rtc"

  predicate EndsWith(s: string, suffix: string)
  {
    |suffix| <= |s| && s[|s| - |suffix|..] == suffix
  }

  /** `s.replace(/suffix$/, '')` for a literal suffix. */
  function StripTrailing(s: string, suffix: string): (r: string)
    ensures EndsWith(s, suffix) ==> r + suffix == s
    ensures !EndsWith(s, suffix) ==> r == s
  {
    if EndsWith(s, suffix) then s[..|s| - |suffix|] else s
  }

  /**
   * The alternate URL: a trailing `/rtc` is removed; otherwise `/rtc` is appended after
   * dropping at most one trailing `/`, keeping everything before it verbatim.
   */
  function AltUrl(wsUrl: string): (alt: string)
    ensures EndsWith(wsUrl, Rtc) ==> alt + Rtc == wsUrl
    ensures !EndsWith(wsUrl, Rtc) ==> EndsWith(alt, Rtc)
    ensures !EndsWith(wsUrl, Rtc) && EndsWith(wsUrl, "/") ==> alt == wsUrl[..|wsUrl| - 1] + Rtc
    ensures !EndsWith(wsUrl, Rtc) && !EndsWith(wsUrl, "/") ==> alt == wsUrl + Rtc
  {
    if EndsWith(wsUrl, Rtc) then StripTrailing(wsUrl, Rtc) else StripTrailing(wsUrl, "/") + Rtc
  }

  /** Toggling twice restores a URL that ends in neither `/` nor `/rtc`. */
  lemma AltUrlToggleBack(wsUrl: string)
    requires !EndsWith(wsUrl, "/") && !EndsWith(wsUrl, Rtc)
    ensures AltUrl(AltUrl(wsUrl)) == wsUrl
  {
    var alt := wsUrl + Rtc;
    assert alt[|alt| - |Rtc|..] == Rtc;
    assert alt[..|alt| - |Rtc|] == wsUrl;
  }

  /** Toggling twice restores a `/rtc` URL whose base ends in neither `/` nor `/rtc`. */
  lemma AltUrlToggleBackFromRtc(wsUrl: string)
    requires EndsWith(wsUrl, Rtc)
    requires !EndsWith(wsUrl[..|wsUrl| - |Rtc|], "/") && !EndsWith(wsUrl[..|wsUrl| - |Rtc|], Rtc)
    ensures AltUrl(AltUrl(wsUrl)) == wsUrl
  {
  }
}
