/**
 * `GetPublicIP`: fetch the address-check page, then cut the address out of it.
 * The fetch is network I/O and arrives as an input (None when the request fails
 * with a `WebException`); the parse is modelled exactly.
 */
module PublicIp {
  import opened Wrappers
  import opened Text

  /** How a lookup ends: an address, a failed request, or an exception from the parse. */
  datatype Lookup = Address(ip: string) | WebFailure | ParseFailure

  /** Whether the cut can succeed: a character follows the first ':' of `t`, and it is not another ':'. */
  predicate Cuttable(t: string)
  {
    IndexOf(t, ':') + 1 < |t| && t[IndexOf(t, ':') + 1] != ':'
  }

  /**
   * `t.Split(':')[1].Substring(1).Split('<')[0]` on the trimmed response `t`. None
   * stands for the exception: `[1]` on a single piece (no ':' at all), or
   * `Substring(1)` on an empty second piece. The cut fails exactly when `t` is
   * not cuttable; otherwise the address is the longest run without ':' and '<'
   * that starts two characters after the first ':'.
   */
  function CutAddress(t: string): (r: Option<string>)
    ensures r.Some? <==> Cuttable(t)
    ensures r.Some? ==> IsRunAt(t, IndexOf(t, ':') + 2, r.value)
  {
    SplitSecond(t, ':');
    var a := Split(t, ':');
    if |a| < 2 then None
    else
      var i := IndexOf(t, ':');
      var rest := t[i + 1..];
      var j := IndexOf(rest, ':');
      assert a[1] == rest[..j];
      if a[1] == [] then None
      else
        var ip := Split(a[1][1..], '<')[0];
        assert a[1][1..] == rest[1..j];
        RunBeforeColon(rest, j);
        RunShift(t, i + 1, 1, ip);
        Some(ip)
  }

  /**
   * `GetPublicIP()` on the page the request returned, if it returned one; its
   * parse trims the page, then cuts. A web failure exactly when the request
   * failed, a parse failure exactly when the trimmed page is not cuttable, and
   * otherwise the address cut out of it, which holds no ':' and no '<'.
   */
  function GetPublicIp(fetched: Option<string>): (r: Lookup)
    ensures r.WebFailure? <==> fetched.None?
    ensures r.ParseFailure? <==> fetched.Some? && !Cuttable(Trim(fetched.value))
    ensures r.Address? ==>
              && fetched.Some?
              && IsRunAt(Trim(fetched.value), IndexOf(Trim(fetched.value), ':') + 2, r.ip)
              && ':' !in r.ip && '<' !in r.ip
  {
    match fetched
    case None => WebFailure
    case Some(page) =>
      match CutAddress(Trim(page))
      case Some(ip) => Address(ip)
      case None => ParseFailure
  }

  /**
   * `r` is the longest run of text of `t` that starts at `start` and holds no ':'
   * and no '<': it ends at the end of `t` or just before a ':' or a '<'.
   */
  predicate IsRunAt(t: string, start: nat, r: string)
  {
    start + |r| <= |t|
    && (forall k | 0 <= k < |r| :: r[k] == t[start + k])
    && ':' !in r && '<' !in r
    && (start + |r| == |t| || t[start + |r|] == ':' || t[start + |r|] == '<')
  }

  /**
   * In text `u` whose first ':' is at `j >= 1`, the part of `u[1..j]` before its
   * first '<' is the run at position 1.
   */
  lemma RunBeforeColon(u: string, j: nat)
    requires 1 <= j <= |u| && j == IndexOf(u, ':')
    ensures IsRunAt(u, 1, Split(u[1..j], '<')[0])
  {
    var seg := u[1..j];
    SplitFirst(seg, '<');
    var m := IndexOf(seg, '<');
    var r := seg[..m];
    assert forall k | 0 <= k < m :: r[k] == u[1 + k];
    assert ':' !in r by {
      assert forall k | 0 <= k < m :: r[k] == u[1 + k] && u[1 + k] != ':';
    }
    if 1 + m < |u| && m == |seg| {
      assert u[1 + m] == u[j];
    }
    assert IsRunAt(u, 1, r);
  }

  /** A run in a suffix `t[d..]` is a run in `t`, `d` positions further on. */
  lemma RunShift(t: string, d: nat, start: nat, r: string)
    requires d <= |t| && IsRunAt(t[d..], start, r)
    ensures IsRunAt(t, d + start, r)
  {
    assert forall k | 0 <= k < |r| :: r[k] == t[d..][start + k] == t[d + start + k];
    if d + start + |r| < |t| {
      assert t[d..][start + |r|] == t[d + start + |r|];
    }
  }
}
