/** Device identity: the pure parts of resolving a connecting peer's address to a
    client id (address normalisation, the loopback shortcut, MAC extraction from
    the neighbour-table output, and the MAC-or-IP fallback). Running `ping` and
    `arp` is outside the model: the output of `arp` is a parameter. */
module Identity {
  import opened Base

  /** Prefix of an IPv4 address carried in an IPv6 socket. */
  const MappedPrefix: string := "::ffff:"

  const LocalhostId: string := "LOCALHOST"

  /** Length of a MAC address written as six hex pairs with five separators. */
  const MacLength: nat := 17

  /** The handshake address with one leading `::ffff:` removed. */
  function StripMappedPrefix(address: string): (ip: string)
    ensures StartsWith(address, MappedPrefix) ==> address == MappedPrefix + ip
    ensures !StartsWith(address, MappedPrefix) ==> ip == address
  {
    if StartsWith(address, MappedPrefix) then address[|MappedPrefix|..] else address
  }

  /** The addresses answered with `LOCALHOST` without probing. */
  predicate IsLoopback(ip: string)
  {
    ip == "127.0.0.1" || ip == "::1" || ip == "localhost"
  }

  predicate IsHexDigit(c: char)
  {
    '0' <= c <= '9' || 'a' <= c <= 'f' || 'A' <= c <= 'F'
  }

  predicate IsSeparator(c: char)
  {
    c == ':' || c == '-'
  }

  predicate HexPair(t: string, k: nat)
    requires k + 2 <= |t|
  {
    IsHexDigit(t[k]) && IsHexDigit(t[k + 1])
  }

  /** `t` is exactly a match of `([0-9a-fA-F]{2}[:-]){5}([0-9a-fA-F]{2})`
      (each separator chosen independently). */
  predicate MacText(t: string)
  {
    |t| == MacLength &&
    HexPair(t, 0) && IsSeparator(t[2]) &&
    HexPair(t, 3) && IsSeparator(t[5]) &&
    HexPair(t, 6) && IsSeparator(t[8]) &&
    HexPair(t, 9) && IsSeparator(t[11]) &&
    HexPair(t, 12) && IsSeparator(t[14]) &&
    HexPair(t, 15)
  }

  /** The regular expression matches `s` at position `i`. */
  predicate MacAt(s: string, i: nat)
  {
    i + MacLength <= |s| && MacText(s[i..i + MacLength])
  }

  function UpperChar(c: char): char
  {
    if 'a' <= c <= 'z' then (c as int - 32) as char else c
  }

  predicate IsUpper(t: string)
  {
    forall k :: 0 <= k < |t| ==> !('a' <= t[k] <= 'z')
  }

  /** `toUpperCase` on ASCII text (a match holds only hex digits, `:` and `-`). */
  function Upper(t: string): (u: string)
    ensures |u| == |t| && IsUpper(u)
    ensures forall k :: 0 <= k < |t| ==> u[k] == UpperChar(t[k])
  {
    seq(|t|, k requires 0 <= k < |t| => UpperChar(t[k]))
  }

  /** The leftmost position at or after `k` where the regular expression matches. */
  function FirstMacFrom(s: string, k: nat): (r: Option<nat>)
    decreases |s| - k
    ensures r.Some? ==> k <= r.value && MacAt(s, r.value)
    ensures r.Some? ==> forall j: nat :: k <= j < r.value ==> !MacAt(s, j)
    ensures r.None? ==> forall j: nat :: k <= j ==> !MacAt(s, j)
  {
    if |s| < k + MacLength then None
    else if MacAt(s, k) then Some(k)
    else FirstMacFrom(s, k + 1)
  }

  /** `stdout.match(macRegex)`, then `match[0].toUpperCase()`, or null. */
  function ExtractMac(stdout: string): (mac: Option<string>)
    ensures mac.None? <==> forall i: nat :: !MacAt(stdout, i)
    ensures mac.Some? ==> exists i: nat :: MacAt(stdout, i) &&
                                           (forall j: nat :: j < i ==> !MacAt(stdout, j)) &&
                                           mac.value == Upper(stdout[i..i + MacLength])
    ensures mac.Some? ==> MacText(mac.value) && IsUpper(mac.value)
  {
    match FirstMacFrom(stdout, 0)
    case None => None
    case Some(i) =>
      UpperKeepsMacText(stdout[i..i + MacLength]);
      Some(Upper(stdout[i..i + MacLength]))
  }

  lemma UpperKeepsMacText(t: string)
    requires MacText(t)
    ensures MacText(Upper(t))
  {
  }

  lemma UpperOfUpper(t: string)
    requires IsUpper(t)
    ensures Upper(t) == t
  {
  }

  /** Extracting from an extracted MAC gives it back: the result is already a
      normalised, whole match. */
  lemma ExtractMacIdempotent(stdout: string)
    requires ExtractMac(stdout).Some?
    ensures ExtractMac(ExtractMac(stdout).value) == ExtractMac(stdout)
  {
    var t := ExtractMac(stdout).value;
    assert t[0..MacLength] == t;
    assert MacAt(t, 0);
    UpperOfUpper(t);
  }

  /** `getMacAddress(ip)` once its probes have run: `arpOutput` is the output of
      the neighbour-table query, or None when the query failed. */
  function MacAddress(ip: string, arpOutput: Option<string>): (mac: Option<string>)
    ensures IsLoopback(ip) ==> mac == Some(LocalhostId)
    ensures !IsLoopback(ip) && arpOutput.None? ==> mac == None
    ensures !IsLoopback(ip) && arpOutput.Some? ==> mac == ExtractMac(arpOutput.value)
  {
    if IsLoopback(ip) then Some(LocalhostId)
    else if arpOutput.None? then None
    else ExtractMac(arpOutput.value)
  }

  /** `clientMac || clientIp`: an empty string is falsy in JavaScript. */
  function ClientIdOf(mac: Option<string>, ip: string): (id: string)
    ensures mac.Some? && mac.value != "" ==> id == mac.value
    ensures mac.None? || mac.value == "" ==> id == ip
  {
    if mac.Some? && mac.value != "" then mac.value else ip
  }

  datatype Resolution = Resolution(clientIp: string, clientId: string)

  /** What the connection handler computes before registering the socket. */
  function Resolve(handshakeAddress: string, arpOutput: Option<string>): (r: Resolution)
    ensures r.clientIp == StripMappedPrefix(handshakeAddress)
    ensures IsLoopback(r.clientIp) ==> r.clientId == LocalhostId
    ensures r.clientId == LocalhostId || r.clientId == r.clientIp ||
            (MacText(r.clientId) && IsUpper(r.clientId))
    ensures !IsLoopback(r.clientIp) && (arpOutput.None? || ExtractMac(arpOutput.value).None?)
            ==> r.clientId == r.clientIp
    ensures !IsLoopback(r.clientIp) && arpOutput.Some? && ExtractMac(arpOutput.value).Some?
            ==> r.clientId == ExtractMac(arpOutput.value).value
  {
    var ip := StripMappedPrefix(handshakeAddress);
    Resolution(ip, ClientIdOf(MacAddress(ip, arpOutput), ip))
  }

  /** The loopback shortcut never consults the neighbour table, including for an
      IPv4-mapped loopback address. */
  lemma LoopbackIgnoresProbe(handshakeAddress: string, arp1: Option<string>, arp2: Option<string>)
    requires IsLoopback(StripMappedPrefix(handshakeAddress))
    ensures Resolve(handshakeAddress, arp1) == Resolve(handshakeAddress, arp2)
    ensures Resolve(handshakeAddress, arp1).clientId == LocalhostId
  {
  }

  lemma MappedLoopbackIsLocalhost(arpOutput: Option<string>)
    ensures Resolve("::ffff:127.0.0.1", arpOutput).clientId == LocalhostId
    ensures Resolve("127.0.0.1", arpOutput).clientId == LocalhostId
    ensures Resolve("::1", arpOutput).clientId == LocalhostId
    ensures Resolve("localhost", arpOutput).clientId == LocalhostId
  {
    assert StartsWith("::ffff:127.0.0.1", MappedPrefix);
    assert "::ffff:127.0.0.1"[|MappedPrefix|..] == "127.0.0.1";
    assert "127.0.0.1"[..|MappedPrefix|][0] != MappedPrefix[0];
    assert "localhost"[..|MappedPrefix|][0] != MappedPrefix[0];
  }
}
