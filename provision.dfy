/** provision.php: the endpoint a handset downloads its configuration from. It normalises the MAC in
    the request, finds the device, applies the remote-access rule, loads the model's profile and renders
    the template. The database, the profile files, the web server's variables and the PBX lookups are
    parameters. */
module Provision {
  import opened Text
  import opened VarMap
  import opened Conditional
  import opened LineKeys
  import opened Contacts
  import opened Render

  // ---------------------------------------------------------------------------
  // qp_is_local_network

  /** The second octet in `172.(1[6-9]|2[0-9]|3[01])\.`. */
  predicate PrivateSecondOctet(a: char, b: char) {
    (a == '1' && '6' <= b <= '9') || (a == '2' && '0' <= b <= '9') || (a == '3' && (b == '0' || b == '1'))
  }

  /** `::1`, or an address matching `^(127\.|10\.|192\.168\.|172\.(1[6-9]|2[0-9]|3[01])\.)`. An unset
      REMOTE_ADDR is the empty string. */
  function IsLocalNetwork(ip: string): bool {
    ip == "::1" || OccursAt(ip, "127.", 0) || OccursAt(ip, "10.", 0) || OccursAt(ip, "192.168.", 0) ||
    (OccursAt(ip, "172.", 0) && |ip| >= 7 && PrivateSecondOctet(ip[4], ip[5]) && ip[6] == '.')
  }

  /** The same rule written out as a list of the address prefixes it accepts. */
  const LocalPrefixes: seq<string> := ["127.", "10.", "192.168.",
    "172.16.", "172.17.", "172.18.", "172.19.", "172.20.", "172.21.", "172.22.", "172.23.",
    "172.24.", "172.25.", "172.26.", "172.27.", "172.28.", "172.29.", "172.30.", "172.31."]

  lemma {:induction false} PrefixShape(i: nat)
    requires 3 <= i < |LocalPrefixes|
    ensures var p := LocalPrefixes[i];
      |p| == 7 && p[..4] == "172." && PrivateSecondOctet(p[4], p[5]) && p[6] == '.'
      && 10 * (p[4] as int - 48) + (p[5] as int - 48) == i + 13
  {
  }

  /** An address is local exactly when it is `::1` or starts with one of the listed prefixes: loopback,
      10/8, 192.168/16 and 172.16/12. */
  lemma {:induction false} LocalNetworkPrefixes(ip: string)
    ensures IsLocalNetwork(ip) <==>
      ip == "::1" || exists i :: 0 <= i < |LocalPrefixes| && OccursAt(ip, LocalPrefixes[i], 0)
  {
    if exists i :: 0 <= i < |LocalPrefixes| && OccursAt(ip, LocalPrefixes[i], 0) {
      var i :| 0 <= i < |LocalPrefixes| && OccursAt(ip, LocalPrefixes[i], 0);
      LocalWhenPrefixed(ip, i);
    }
    if IsLocalNetwork(ip) && ip != "::1" {
      var i := PrefixOfLocal(ip);
    }
  }

  /** Each listed prefix makes an address local. */
  lemma {:induction false} LocalWhenPrefixed(ip: string, i: nat)
    requires i < |LocalPrefixes| && OccursAt(ip, LocalPrefixes[i], 0)
    ensures IsLocalNetwork(ip)
  {
    if i >= 3 {
      PrefixShape(i);
      var p := LocalPrefixes[i];
      assert ip[..7] == p;
      assert ip[..4] == p[..4];
    }
  }

  /** A local address other than `::1` starts with a listed prefix, the one this returns. */
  lemma {:induction false} PrefixOfLocal(ip: string) returns (i: nat)
    requires IsLocalNetwork(ip) && ip != "::1"
    ensures i < |LocalPrefixes| && OccursAt(ip, LocalPrefixes[i], 0)
  {
    if OccursAt(ip, "127.", 0) {
      i := 0;
    } else if OccursAt(ip, "10.", 0) {
      i := 1;
    } else if OccursAt(ip, "192.168.", 0) {
      i := 2;
    } else {
      i := 10 * (ip[4] as int - 48) + (ip[5] as int - 48) - 13;
      PrefixShape(i);
      var p := LocalPrefixes[i];
      assert ip[..7] == ip[..4] + [ip[4], ip[5], ip[6]];
      assert p == p[..4] + [p[4], p[5], p[6]];
    }
  }

  // ---------------------------------------------------------------------------
  // MAC normalisation

  /** `preg_replace('/[^A-F0-9]/', '', s)`: only digits and upper-case A-F are kept. */
  function KeepUpperHex(s: string): (r: string)
    ensures |r| <= |s| && forall i :: 0 <= i < |r| ==> IsUpperHex(r[i])
  {
    if s == [] then [] else (if IsUpperHex(s[0]) then [s[0]] else []) + KeepUpperHex(s[1..])
  }

  lemma {:induction false} KeepUpperHexAppend(a: string, b: string)
    ensures KeepUpperHex(a + b) == KeepUpperHex(a) + KeepUpperHex(b)
  {
    if a == [] {
      assert a + b == b;
    } else {
      assert (a + b)[1..] == a[1..] + b;
      KeepUpperHexAppend(a[1..], b);
    }
  }

  /** One character is kept exactly when it is in `[0-9A-F]`. With `KeepUpperHexAppend` this pins the
      filter down: every `0-9A-F` character is kept, in order, and every other character is deleted. */
  lemma {:induction false} KeepUpperHexChar(c: char)
    ensures KeepUpperHex([c]) == if IsUpperHex(c) then [c] else []
  {
    assert [c][1..] == [];
  }

  lemma {:induction false} KeepUpperHexOfUpperHex(s: string)
    requires forall i :: 0 <= i < |s| ==> IsUpperHex(s[i])
    ensures KeepUpperHex(s) == s
  {
    if s != [] { KeepUpperHexOfUpperHex(s[1..]); }
  }

  lemma {:induction false} KeepUpperHexOfLower(s: string)
    requires forall i :: 0 <= i < |s| ==> IsLower(s[i])
    ensures KeepUpperHex(s) == []
  {
    if s != [] { KeepUpperHexOfLower(s[1..]); }
  }

  lemma {:induction false} UpperOfUpperHex(s: string)
    requires forall i :: 0 <= i < |s| ==> IsUpperHex(s[i])
    ensures Upper(s) == s
  {
  }

  /** provision.php:14 as written: strip first, then upper-case. */
  function NormaliseMacAsWritten(s: string): string {
    Upper(KeepUpperHex(s))
  }

  /** As written, the upper-casing comes too late to do anything: lower-case letters, hex digits a-f
      included, have already been deleted, and only `0-9A-F` remain. */
  lemma {:induction false} AsWrittenDeletesLowercase(s: string)
    ensures NormaliseMacAsWritten(s) == KeepUpperHex(s)
    ensures forall i :: 0 <= i < |NormaliseMacAsWritten(s)| ==> IsUpperHex(NormaliseMacAsWritten(s)[i])
  {
    UpperOfUpperHex(KeepUpperHex(s));
  }

  /** The request check of provision.php:14-18 as written. */
  function ParseMacAsWritten(param: Option<string>): (r: Option<string>)
    ensures r.Some? <==> param.Some? && |KeepUpperHex(param.value)| >= 12
    ensures r.Some? ==> r.value == KeepUpperHex(param.value) && |r.value| >= 12
  {
    match param
    case None => None
    case Some(s) =>
      AsWrittenDeletesLowercase(s);
      var mac := NormaliseMacAsWritten(s);
      if !Truthy(mac) || |mac| < 12 then None else Some(mac)
  }

  /** As written, a MAC whose letters are typed in lower case is refused: of `d + l` with `d` digits
      and upper-case hex and `l` lower-case letters, only `d` survives, and it is short. */
  lemma {:induction false} LowercaseMacRejectedAsWritten(d: string, l: string)
    requires |d| < 12 && forall i :: 0 <= i < |d| ==> IsUpperHex(d[i])
    requires forall i :: 0 <= i < |l| ==> IsLower(l[i])
    ensures ParseMacAsWritten(Some(d + l)) == None
  {
    KeepUpperHexAppend(d, l);
    KeepUpperHexOfUpperHex(d);
    KeepUpperHexOfLower(l);
    assert KeepUpperHex(d + l) == d + [];
    ShortMacRejectedAsWritten(d + l);
  }

  /** The request `mac=001565aabbcc` is refused as written. */
  lemma {:induction false} LowercaseMacExample()
    ensures ParseMacAsWritten(Some("001565" + "aabbcc")) == None
  {
    LowercaseMacRejectedAsWritten("001565", "aabbcc");
  }

  lemma {:induction false} ShortMacRejectedAsWritten(s: string)
    requires |KeepUpperHex(s)| < 12
    ensures ParseMacAsWritten(Some(s)) == None
  {
    AsWrittenDeletesLowercase(s);
  }

  /** The normalisation as evidently intended (the order of the two calls swapped): upper-case first,
      then keep `0-9A-F`. */
  function NormaliseMac(s: string): (r: string)
    ensures forall i :: 0 <= i < |r| ==> IsUpperHex(r[i])
  {
    KeepUpperHex(Upper(s))
  }

  /** The characters `[0-9A-Fa-f]`. */
  predicate IsHex(c: char) {
    IsUpperHex(c) || 'a' <= c <= 'f'
  }

  function KeepHex(s: string): (r: string) {
    if s == [] then [] else (if IsHex(s[0]) then [s[0]] else []) + KeepHex(s[1..])
  }

  /** Every hex digit of the request, of either case, is kept and upper-cased; nothing else is kept. */
  lemma {:induction false} NormaliseMacKeepsEveryHexDigit(s: string)
    ensures NormaliseMac(s) == Upper(KeepHex(s))
  {
    if s != [] {
      NormaliseMacKeepsEveryHexDigit(s[1..]);
      assert Upper(s)[1..] == Upper(s[1..]);
      if IsHex(s[0]) {
        assert Upper([s[0]] + KeepHex(s[1..])) == [UpperChar(s[0])] + Upper(KeepHex(s[1..]));
      }
    }
  }

  /** Case does not matter: a MAC typed in lower case normalises exactly as in upper case. */
  lemma {:induction false} NormaliseMacIgnoresCase(s: string)
    ensures NormaliseMac(Lower(s)) == NormaliseMac(s)
  {
    assert Upper(Lower(s)) == Upper(s);
  }

  /** The request check with the intended normalisation: the MAC must be given and normalise to at
      least 12 characters. */
  function ParseMac(param: Option<string>): (r: Option<string>)
    ensures r.Some? ==> |r.value| >= 12 && forall i :: 0 <= i < |r.value| ==> IsUpperHex(r.value[i])
    ensures r.Some? <==> param.Some? && |NormaliseMac(param.value)| >= 12
  {
    match param
    case None => None
    case Some(s) =>
      var mac := NormaliseMac(s);
      if !Truthy(mac) || |mac| < 12 then None else Some(mac)
  }

  /** The correction changes nothing for a request without lower-case letters: both orders give the
      same answer. */
  lemma {:induction false} ParsesAgreeWithoutLowercase(s: string)
    requires forall i :: 0 <= i < |s| ==> !IsLower(s[i])
    ensures ParseMacAsWritten(Some(s)) == ParseMac(Some(s))
  {
    assert Upper(s) == s;
    AsWrittenDeletesLowercase(s);
  }

  /** With the intended order, the same request is accepted, its letters upper-cased. */
  lemma {:induction false} LowercaseMacAccepted(d: string, l: string)
    requires |d| + |l| >= 12 && forall i :: 0 <= i < |d| ==> IsUpperHex(d[i])
    requires forall i :: 0 <= i < |l| ==> 'a' <= l[i] <= 'f'
    ensures ParseMac(Some(d + l)) == Some(d + Upper(l))
  {
    var u := Upper(l);
    assert Upper(d + l) == Upper(d) + u;
    UpperOfUpperHex(d);
    assert forall i :: 0 <= i < |u| ==> IsUpperHex(u[i]);
    KeepUpperHexAppend(d, u);
    KeepUpperHexOfUpperHex(d);
    KeepUpperHexOfUpperHex(u);
    assert NormaliseMac(d + l) == d + u;
  }

  // ---------------------------------------------------------------------------
  // Remote access

  datatype Access = Granted | NoCredentials | BadCredentials

  /** provision.php:29-55: a local client is let through; a remote one needs stored credentials that are
      both non-empty (in PHP's sense) and supplied exactly. */
  function RemoteAccess(local: bool, provUser: Option<string>, provPass: Option<string>,
                        authUser: Option<string>, authPw: Option<string>): Access
  {
    if local then Granted
    else
      var user := provUser.GetOr("");
      var pass := provPass.GetOr("");
      if !Truthy(user) || !Truthy(pass) then NoCredentials
      else if authUser.GetOr("") != user || authPw.GetOr("") != pass then BadCredentials
      else Granted
  }

  /** Access is granted exactly when the client is local, or the stored user name and password are
      both PHP-truthy and equal the supplied Basic credentials. */
  lemma {:induction false} RemoteAccessRule(local: bool, provUser: Option<string>, provPass: Option<string>,
                         authUser: Option<string>, authPw: Option<string>)
    ensures RemoteAccess(local, provUser, provPass, authUser, authPw) == Granted <==>
      local ||
      (Truthy(provUser.GetOr("")) && Truthy(provPass.GetOr("")) &&
       authUser.GetOr("") == provUser.GetOr("") && authPw.GetOr("") == provPass.GetOr(""))
    ensures !local && (!Truthy(provUser.GetOr("")) || !Truthy(provPass.GetOr(""))) ==>
      RemoteAccess(local, provUser, provPass, authUser, authPw) == NoCredentials
  {
  }

  // ---------------------------------------------------------------------------
  // Inputs

  /** A row of quickprovisioner_devices, with its JSON columns already decoded (a column that does not
      decode reads as the empty list). */
  datatype Device = Device(
    mac: string, model: string, extension: string, wallpaper: string,
    securityPin: Option<string>, provUsername: Option<string>, provPassword: Option<string>,
    customOptions: VarMap, templateOverride: string, keys: seq<Key>, contacts: seq<Contact>)

  /** The `provisioning` part of a model profile. */
  datatype Profile = Profile(template: Option<string>, contentType: Option<string>,
                             filenamePattern: Option<string>, typeMapping: VarMap)

  /** What the web server tells the script about the request. */
  datatype Server = Server(remoteAddr: string, https: Option<string>, authUser: Option<string>,
                           authPw: Option<string>, host: string, serverAddr: string)

  /** What the PBX knows about the device's extension: the user's name, the SIP secret and the SIP bind
      port, each possibly missing. */
  datatype Platform = Platform(userName: Option<string>, secret: Option<string>, bindPort: Option<string>)

  /** The column's `utf8mb4_unicode_ci` collation compares without regard to case (only ASCII case is
      modelled). */
  predicate SameIgnoringCase(a: string, b: string) {
    Upper(a) == Upper(b)
  }

  /** `SELECT * FROM quickprovisioner_devices WHERE mac=?`: the first row whose MAC equals the
      request's, ignoring case. */
  function FindDevice(devices: seq<Device>, mac: string): (r: Option<Device>)
    ensures r.Some? ==> r.value in devices && SameIgnoringCase(r.value.mac, mac)
    ensures r.None? ==> forall d :: d in devices ==> !SameIgnoringCase(d.mac, mac)
  {
    if devices == [] then None
    else if SameIgnoringCase(devices[0].mac, mac) then Some(devices[0])
    else FindDevice(devices[1..], mac)
  }

  /** A device saved with its MAC in lower case is found by the upper-case MAC the endpoint
      looks up. */
  lemma {:induction false} LowercaseStoredMacFound(d: Device, rest: seq<Device>)
    ensures FindDevice([d] + rest, Upper(d.mac)) == Some(d)
  {
    assert ([d] + rest)[0] == d;
    assert Upper(Upper(d.mac)) == Upper(d.mac);
  }

  // ---------------------------------------------------------------------------
  // Output headers

  function ContentType(p: Profile): string {
    p.contentType.GetOr("text/plain")
  }

  /** `str_replace('{mac}', $mac, $pattern ?? '{mac}.cfg')`. */
  function Filename(pattern: Option<string>, mac: string): string {
    Replace(pattern.GetOr("{mac}.cfg"), "{mac}", mac)
  }

  /** Without a pattern the file is `<MAC>.cfg`; without a content type it is `text/plain`. */
  lemma {:induction false} DefaultFilenameAndType(mac: string, p: Profile)
    ensures Filename(None, mac) == mac + ".cfg"
    ensures p.contentType.None? ==> ContentType(p) == "text/plain"
    ensures p.contentType.Some? ==> ContentType(p) == p.contentType.value
  {
    var pattern := "{mac}.cfg";
    assert pattern[..5] == "{mac}" && pattern[5..] == ".cfg";
    AbsentWhenShorter(".cfg", "{mac}");
    ReplaceAbsent(".cfg", "{mac}", mac);
    ReplaceAtStart(pattern, "{mac}", mac);
  }

  // ---------------------------------------------------------------------------
  // Variables

  /** `https` only when the server says HTTPS is `on`. */
  function Scheme(https: Option<string>): string {
    if https == Some("on") then "https" else "http"
  }

  /** The link the handset fetches its wallpaper from: no credentials, the MAC as the only parameter. */
  function WallpaperUrl(d: Device, server: Server, mac: string): string {
    if Truthy(d.wallpaper) then Scheme(server.https) + "://" + server.host + MediaPath + "?mac=" + mac else ""
  }

  /** The built-in variables of provision.php:94-104, in their order. */
  function Builtins(mac: string, d: Device, platform: Platform, server: Server): VarMap {
    var pin := d.securityPin.GetOr("");
    BuiltinsBeforeLock(mac, d, platform, server) + [("{{lock_enable}}", if Truthy(pin) then "1" else "0")]
  }

  function BuiltinsBeforeLock(mac: string, d: Device, platform: Platform, server: Server): VarMap {
    [("{{mac}}", mac),
     ("{{extension}}", d.extension),
     ("{{password}}", platform.secret.GetOr("")),
     ("{{display_name}}", platform.userName.GetOr(d.extension)),
     ("{{server_host}}", server.serverAddr),
     ("{{server_port}}", platform.bindPort.GetOr("5060")),
     ("{{wallpaper}}", WallpaperUrl(d, server, mac)),
     ("{{security_pin}}", d.securityPin.GetOr(""))]
  }

  /** The full map: the built-ins, then the custom options with non-empty values, unescaped. */
  function ProvisionVars(mac: string, d: Device, platform: Platform, server: Server): VarMap {
    MergeOptions(Builtins(mac, d, platform, server), d.customOptions, false)
  }

  /** No custom option with a non-empty value is named `name`. */
  predicate NotOverridden(d: Device, name: string) {
    forall o :: o in d.customOptions && o.1 != "" ==> o.0 != name
  }

  /** `{{lock_enable}}` is 1 exactly when the PIN is PHP-truthy (so a PIN of "0" gives 0), unless a
      custom option of that name replaces it. */
  lemma {:induction false} LockEnableFollowsPin(mac: string, d: Device, platform: Platform, server: Server)
    requires NotOverridden(d, "lock_enable")
    ensures Lookup(ProvisionVars(mac, d, platform, server), "{{lock_enable}}")
         == Some(if Truthy(d.securityPin.GetOr("")) then "1" else "0")
  {
    forall o | o in d.customOptions && o.1 != ""
      ensures Braced(o.0) != "{{lock_enable}}"
    {
      NotBracedLock(o.0);
    }
    BuiltinLock(mac, d, platform, server);
    OptionsLeaveOthers(Builtins(mac, d, platform, server), d.customOptions, false, "{{lock_enable}}");
  }

  lemma {:induction false} NotBracedLock(name: string)
    ensures Braced(name) == "{{lock_enable}}" ==> name == "lock_enable"
  {
    assert Braced("lock_enable") == "{{lock_enable}}";
    if Braced(name) == Braced("lock_enable") {
      BracedInjective(name, "lock_enable");
    }
  }

  lemma {:induction false} BuiltinLock(mac: string, d: Device, platform: Platform, server: Server)
    ensures Lookup(Builtins(mac, d, platform, server), "{{lock_enable}}")
         == Some(if Truthy(d.securityPin.GetOr("")) then "1" else "0")
  {
    var first := BuiltinsBeforeLock(mac, d, platform, server);
    var k := "{{lock_enable}}";
    assert k[2] == 'l' && |k| == 15;
    forall i | 0 <= i < |first|
      ensures first[i].0 != k
    {
      assert |first[i].0| != 15 || first[i].0[2] != 'l';
    }
    LookupLast(first, k, if Truthy(d.securityPin.GetOr("")) then "1" else "0");
  }

  /** A `{{if lock_enable}}` section is kept exactly when the device has a PHP-truthy PIN. */
  lemma {:induction false} LockSectionFollowsPin(mac: string, d: Device, platform: Platform, server: Server)
    requires NotOverridden(d, "lock_enable")
    ensures Keeps(ProvisionVars(mac, d, platform, server), "lock_enable") <==> Truthy(d.securityPin.GetOr(""))
  {
    LockEnableFollowsPin(mac, d, platform, server);
    KeepsLock(ProvisionVars(mac, d, platform, server));
  }

  /** `{{if lock_enable}}` tests the variable `{{lock_enable}}` (the name has nothing to trim). */
  lemma {:induction false} KeepsLock(vars: VarMap)
    ensures Keeps(vars, "lock_enable")
        <==> Lookup(vars, "{{lock_enable}}").Some? && Truthy(Lookup(vars, "{{lock_enable}}").value)
  {
    var name := "lock_enable";
    var t := Trim(name);
    TrimUnchanged(name);
    assert t == name;
    var key := "{{" + t + "}}";
    assert key == "{{lock_enable}}";
  }

  /** A custom option with a non-empty value wins over the built-in variable of the same name, and its
      value goes in unescaped. */
  lemma {:induction false} CustomOptionOverridesBuiltin(mac: string, d: Device, platform: Platform, server: Server, k: string, v: string)
    requires DistinctNames(d.customOptions) && (k, v) in d.customOptions && v != ""
    ensures Lookup(ProvisionVars(mac, d, platform, server), Braced(k)) == Some(v)
  {
    OptionOverrides(Builtins(mac, d, platform, server), d.customOptions, false, k, v);
  }

  // ---------------------------------------------------------------------------
  // The endpoint

  datatype Response =
    | Served(body: string, contentType: string, filename: string)
    | Refused(status: nat, message: string)

  /** The configuration body for a device that passed every check. */
  function RenderedConfig(mac: string, d: Device, p: Profile, platform: Platform, server: Server): string {
    var vars := ProvisionVars(mac, d, platform, server);
    var template := SelectTemplate(d.templateOverride, p.template);
    Rendered(template, vars, d.keys, p.typeMapping, d.contacts, Scheme(server.https) + "://" + server.host, mac)
  }

  /** The outcome of the checks of provision.php:14-55, made before any profile is read. */
  datatype Admission = Admitted(mac: string, device: Device) | Denied(status: nat, message: string)

  /** The MAC check as written (strip, then upper-case), the device lookup and the access rule, in
      that order. */
  function Admit(macParam: Option<string>, devices: seq<Device>, server: Server): Admission {
    match ParseMacAsWritten(macParam)
    case None => Denied(200, "Invalid or no MAC provided")
    case Some(mac) =>
      match FindDevice(devices, mac)
      case None => Denied(404, "Device not found")
      case Some(d) =>
        if RemoteAccess(IsLocalNetwork(server.remoteAddr), d.provUsername, d.provPassword,
                        server.authUser, server.authPw) != Granted
        then Denied(401, "Authentication required")
        else Admitted(mac, d)
  }

  /** The whole script. `profiles` maps a model name to its profile file: absent when there is no file,
      `None` when the file is not valid JSON. A `die` without a status code answers 200. */
  function ProvisionResponse(macParam: Option<string>, devices: seq<Device>, profiles: map<string, Option<Profile>>,
                             server: Server, platform: Platform): Response
  {
    match Admit(macParam, devices, server)
    case Denied(status, message) => Refused(status, message)
    case Admitted(mac, d) =>
      var model := Basename(d.model);
      if model !in profiles then Refused(200, "Template not found for model " + model)
      else if profiles[model].None? then Refused(200, "Invalid template JSON for model " + model)
      else
        var p := profiles[model].value;
        Served(RenderedConfig(mac, d, p, platform, server), ContentType(p), Filename(p.filenamePattern, mac))
  }

  /** provision.php from top to bottom; the render steps run as loops. */
  method Provision(macParam: Option<string>, devices: seq<Device>, profiles: map<string, Option<Profile>>,
                   server: Server, platform: Platform) returns (resp: Response)
    ensures resp == ProvisionResponse(macParam, devices, profiles, server, platform)
  {
    var parsed := ParseMacAsWritten(macParam);
    if parsed.None? {
      return Refused(200, "Invalid or no MAC provided");
    }
    var mac := parsed.value;
    var found := FindDevice(devices, mac);
    if found.None? {
      return Refused(404, "Device not found");
    }
    var d := found.value;
    var access := RemoteAccess(IsLocalNetwork(server.remoteAddr), d.provUsername, d.provPassword,
                               server.authUser, server.authPw);
    if access != Granted {
      return Refused(401, "Authentication required");
    }
    var model := Basename(d.model);
    if model !in profiles {
      return Refused(200, "Template not found for model " + model);
    }
    if profiles[model].None? {
      return Refused(200, "Invalid template JSON for model " + model);
    }
    var p := profiles[model].value;
    var vars := MergeCustomOptions(Builtins(mac, d, platform, server), d.customOptions, false);
    var template := SelectTemplate(d.templateOverride, p.template);
    var body := RenderTemplate(template, vars, d.keys, p.typeMapping, d.contacts,
                               Scheme(server.https) + "://" + server.host, mac);
    resp := Served(body, ContentType(p), Filename(p.filenamePattern, mac));
  }

  /** A device is admitted only for a well-formed MAC of a stored device, and for a remote client only
      when it supplied the device's (non-empty) credentials; conversely such a request is admitted. */
  lemma {:induction false} AdmittedOnlyWhenAuthorised(macParam: Option<string>, devices: seq<Device>, server: Server)
    ensures Admit(macParam, devices, server).Admitted? <==>
      var mac := ParseMacAsWritten(macParam);
      mac.Some? && FindDevice(devices, mac.value).Some? &&
      var d := FindDevice(devices, mac.value).value;
      (IsLocalNetwork(server.remoteAddr) ||
       (Truthy(d.provUsername.GetOr("")) && Truthy(d.provPassword.GetOr("")) &&
        server.authUser == d.provUsername && server.authPw == d.provPassword))
    ensures Admit(macParam, devices, server).Admitted? ==>
      Admit(macParam, devices, server).mac == ParseMacAsWritten(macParam).value &&
      Admit(macParam, devices, server).device == FindDevice(devices, ParseMacAsWritten(macParam).value).value
  {
    var mac := ParseMacAsWritten(macParam);
    if mac.Some? && FindDevice(devices, mac.value).Some? {
      var d := FindDevice(devices, mac.value).value;
      RemoteAccessRule(IsLocalNetwork(server.remoteAddr), d.provUsername, d.provPassword, server.authUser, server.authPw);
    }
  }

  /** A configuration is served only to an admitted request, and a refusal carries the status and
      message of the first check that failed. */
  lemma {:induction false} ServedOnlyWhenAdmitted(macParam: Option<string>, devices: seq<Device>,
                               profiles: map<string, Option<Profile>>, server: Server, platform: Platform)
    ensures ProvisionResponse(macParam, devices, profiles, server, platform).Served? ==>
      Admit(macParam, devices, server).Admitted?
    ensures Admit(macParam, devices, server).Denied? ==>
      ProvisionResponse(macParam, devices, profiles, server, platform)
        == Refused(Admit(macParam, devices, server).status, Admit(macParam, devices, server).message)
  {
  }
}
