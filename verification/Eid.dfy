/** Endpoint identifiers: scheme detection, validation and reduction to the
    node ID (components/ud3tn/eid.c). A string is the content of a C string,
    so it has no terminating zero character. */
module Eid {
  import opened Octets

  const EID_MAX_LEN := 32766

  datatype Scheme = SchemeUnknown | SchemeDtn | SchemeIpn

  predicate HasPrefix(s: string, p: string) {
    |p| <= |s| && s[..|p|] == p
  }

  function GetScheme(eid: string): Scheme {
    if |eid| > EID_MAX_LEN then SchemeUnknown
    else if HasPrefix(eid, "dtn:") then SchemeDtn
    else if HasPrefix(eid, "ipn:") then SchemeIpn
    else SchemeUnknown
  }

  predicate IsDigit(c: char) {
    '0' <= c <= '9'
  }

  predicate IsNodeNameChar(c: char) {
    IsDigit(c) || 'a' <= c <= 'z' || 'A' <= c <= 'Z' || c == '-' || c == '.' || c == '_'
  }

  predicate IsVchar(c: char) {
    '\U{21}' <= c <= '\U{7E}'
  }

  /** Position of the first character at or after `from` that is not a node
      name character, or the end of the string. */
  function NodeNameEnd(s: string, from: nat): (r: nat)
    requires from <= |s|
    ensures from <= r <= |s|
    ensures forall i :: from <= i < r ==> IsNodeNameChar(s[i])
    ensures r < |s| ==> !IsNodeNameChar(s[r])
    decreases |s| - from
  {
    if from < |s| && IsNodeNameChar(s[from]) then NodeNameEnd(s, from + 1) else from
  }

  /** Position of the first `c` at or after `from`, or the end of the string. */
  function Find(s: string, c: char, from: nat): (r: nat)
    requires from <= |s|
    ensures from <= r <= |s|
    ensures forall i :: from <= i < r ==> s[i] != c
    ensures r < |s| ==> s[r] == c
    decreases |s| - from
  {
    if from < |s| && s[from] != c then Find(s, c, from + 1) else from
  }

  function DigitsEnd(s: string, from: nat): (r: nat)
    requires from <= |s|
    ensures from <= r <= |s|
    ensures forall i :: from <= i < r ==> IsDigit(s[i])
    ensures r < |s| ==> !IsDigit(s[r])
    decreases |s| - from
  {
    if from < |s| && IsDigit(s[from]) then DigitsEnd(s, from + 1) else from
  }

  /** The number a string of decimal digits denotes. */
  function Decimal(s: string): nat
    requires forall i :: 0 <= i < |s| ==> IsDigit(s[i])
  {
    if s == [] then 0
    else
      assert IsDigit(s[|s| - 1]);
      Decimal(s[..|s| - 1]) * 10 + (s[|s| - 1] as int - '0' as int)
  }

  /** `parse_ipn_ull`: a run of digits ended by a dot or the end of the string,
      below 2^64, where zero is only written "0". */
  function ParseIpnNumber(s: string, from: nat): (r: Option<(nat, nat)>)
    requires from <= |s|
    ensures r.Some? ==> from < r.value.1 <= |s| && r.value.0 < TWO_64
    ensures r.Some? && r.value.1 < |s| ==> s[r.value.1] == '.'
    ensures r.Some? ==> forall i :: from <= i < r.value.1 ==> IsDigit(s[i])
  {
    var end := DigitsEnd(s, from);
    if end < |s| && s[end] != '.' then None
    else
      var v := Decimal(s[from..end]);
      if v == 0 && s[from..end] != "0" then None
      else if v >= TWO_64 then None
      else Some((v, end))
  }

  /** `validate_ipn_eid`: the node and service numbers of an ipn EID. */
  function ParseIpn(eid: string): (r: Option<(nat, nat)>)
    ensures r.Some? ==> r.value.0 < TWO_64 && r.value.1 < TWO_64
  {
    if GetScheme(eid) != SchemeIpn then None
    else
      var node := ParseIpnNumber(eid, 4);
      if node.None? || node.value.1 == |eid| then None
      else
        var service := ParseIpnNumber(eid, node.value.1 + 1);
        if service.None? || service.value.1 != |eid| then None
        else Some((node.value.0, service.value.0))
  }

  predicate ValidDemux(s: string, from: nat)
    requires from <= |s|
  {
    forall i :: from <= i < |s| ==> IsVchar(s[i])
  }

  predicate ValidDtn(eid: string) {
    |eid| >= 7 &&
    (eid == "dtn:none" ||
     (HasPrefix(eid, "dtn://") &&
      var e := NodeNameEnd(eid, 6);
      e > 6 && (e == |eid| || (eid[e] == '/' && ValidDemux(eid, e)))))
  }

  predicate Valid(eid: string) {
    match GetScheme(eid)
    case SchemeDtn => ValidDtn(eid)
    case SchemeIpn => ParseIpn(eid).Some?
    case SchemeUnknown => false
  }

  /** `get_node_id`: the node part of an EID, absent for invalid EIDs and for
      dtn group endpoints (demux starting with a tilde). */
  function GetNodeId(eid: string): Option<string> {
    if !Valid(eid) then None
    else if GetScheme(eid) == SchemeDtn then
      if !HasPrefix(eid, "dtn://") then Some(eid)
      else
        var slash := Find(eid, '/', 6);
        if slash == |eid| then Some(eid + "/")
        else if slash + 1 == |eid| then Some(eid)
        else if eid[slash + 1] == '~' then None
        else Some(eid[..slash + 1])
    else
      var dot := Find(eid, '.', 0);
      Some(eid[..Min(dot, |eid|)] + ".0")
  }

  /** What the configuration parser stores for an EID it read: the node ID
      where there is one, the EID itself otherwise. */
  function Normalise(eid: string): string {
    match GetNodeId(eid)
    case Some(id) => id
    case None => eid
  }
}
