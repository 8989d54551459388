/** `get_client_ip`, the address the login/logout/login-failure log lines
    report. The request's `META` dictionary is a map from header names to
    their string values. */
module Signals {
  import opened Wrappers
  import opened Text

  const ForwardedFor: string := "HTTP_X_FORWARDED_FOR"
  const RemoteAddr: string := "REMOTE_ADDR"

  /** The client address: the first comma-separated entry of a non-empty
      `X-Forwarded-For` header, else `REMOTE_ADDR`, else `None`. The entry
      is not stripped, so `"a, b"` yields `"a"` and `" a,b"` yields `" a"`. */
  function ClientIp(meta: map<string, string>): (r: Option<string>)
    ensures ForwardedFor in meta && meta[ForwardedFor] != "" ==>
      r.Some? && r.value <= meta[ForwardedFor] && ',' !in r.value &&
      (|r.value| < |meta[ForwardedFor]| ==> meta[ForwardedFor][|r.value|] == ',')
    ensures ForwardedFor in meta && meta[ForwardedFor] != "" && ',' !in meta[ForwardedFor] ==>
      r == Some(meta[ForwardedFor])
    ensures (ForwardedFor !in meta || meta[ForwardedFor] == "") ==>
      r == (if RemoteAddr in meta then Some(meta[RemoteAddr]) else None)
  {
    if ForwardedFor in meta && meta[ForwardedFor] != "" then
      Some(Split(meta[ForwardedFor], ',')[0])
    else if RemoteAddr in meta then
      Some(meta[RemoteAddr])
    else
      None
  }

  /** The address is exactly the text before the first comma, even when
      that text is empty. */
  lemma ClientIpIsFirstEntry(meta: map<string, string>, first: string, rest: string)
    requires ',' !in first
    requires ForwardedFor in meta && meta[ForwardedFor] == first + "," + rest
    ensures ClientIp(meta) == Some(first)
  {
    var h := first + "," + rest;
    var r := ClientIp(meta).value;
    assert h[|first|] == ',';
    assert h[..|first|] == first;
    assert r == h[..|r|];
  }
}
