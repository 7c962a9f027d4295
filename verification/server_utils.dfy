/** Client address selection from the proxy headers. */
module ServerUtils {
  import opened Wrappers

  const Fallback: string := "0.0.0.0"

  /**
   `getIpAddress` as written, given the `x-forwarded-for` and `x-real-ip`
   header values (`None` when the header is missing). The first hop is
   computed and thrown away, so a forwarded-for list comes back whole.
   */
  function GetIpAddress(forwardedFor: Option<string>, realIp: Option<string>): (ip: string)
    ensures forwardedFor.Some? && forwardedFor.value != "" ==> ip == forwardedFor.value
    ensures (forwardedFor.None? || forwardedFor.value == "") && realIp.Some? ==> ip == realIp.value
    ensures (forwardedFor.None? || forwardedFor.value == "") && realIp.None? ==> ip == Fallback
  {
    if forwardedFor.None? || forwardedFor.value == "" then
      match realIp
      case Some(r) => r
      case None => Fallback
    else
      // `ip.split(",")[0]` is evaluated here and its value dropped.
      forwardedFor.value
  }

  /** `s.split(",")[0]`: everything before the first comma. */
  function FirstHop(s: string): (r: string)
    ensures |r| <= |s| && r == s[..|r|]
    ensures forall i :: 0 <= i < |r| ==> r[i] != ','
    ensures |r| < |s| ==> s[|r|] == ','
  {
    if |s| == 0 || s[0] == ',' then ""
    else [s[0]] + FirstHop(s[1..])
  }

  /** The first hop of `a + "," + b` is `a` when `a` has no comma. */
  lemma {:induction false} FirstHopOfList(a: string, b: string)
    requires forall i :: 0 <= i < |a| ==> a[i] != ','
    ensures FirstHop(a + [','] + b) == a
  {
    if |a| > 0 {
      assert (a + [','] + b)[1..] == a[1..] + [','] + b;
      FirstHopOfList(a[1..], b);
    }
  }

  /** `getIpAddress` with the first hop kept, as the discarded `split` intends. */
  function GetIpAddressFirstHop(forwardedFor: Option<string>, realIp: Option<string>): (ip: string)
    ensures forwardedFor.Some? && forwardedFor.value != "" ==>
              ip == FirstHop(forwardedFor.value) && ',' !in ip
    ensures forwardedFor.None? || forwardedFor.value == "" ==> ip == GetIpAddress(forwardedFor, realIp)
  {
    if forwardedFor.None? || forwardedFor.value == "" then GetIpAddress(forwardedFor, realIp)
    else FirstHop(forwardedFor.value)
  }

  /** A present but empty `x-real-ip` is returned as the empty string. */
  lemma EmptyRealIpKept(forwardedFor: Option<string>)
    requires forwardedFor.None? || forwardedFor.value == ""
    ensures GetIpAddress(forwardedFor, Some("")) == ""
  {
  }

  /**
   With a proxy chain in `x-forwarded-for` (for instance
   "203.0.113.7, 10.0.0.1"), the whole chain comes back instead of the first
   address.
   */
  lemma ForwardedChainReturnedWhole(client: string, proxies: string, realIp: Option<string>)
    requires forall i :: 0 <= i < |client| ==> client[i] != ','
    ensures GetIpAddress(Some(client + [','] + proxies), realIp) == client + [','] + proxies
    ensures GetIpAddressFirstHop(Some(client + [','] + proxies), realIp) == client
    ensures GetIpAddress(Some(client + [','] + proxies), realIp) != GetIpAddressFirstHop(Some(client + [','] + proxies), realIp)
  {
    FirstHopOfList(client, proxies);
    assert |client + [','] + proxies| > |client|;
  }
}
