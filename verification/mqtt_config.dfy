/**
 * Broker URI validation and the stored broker credentials
 * (components/network_core/network_mqtt_config.cpp; main/mqtt_init.cpp
 * carries an identical copy of the URI validation and of the copying).
 *
 * Strings are the contents of C strings.
 */
module MqttConfig {
  import opened Wrappers
  import opened Chars

  /** Buffer sizes, each including the NUL. */
  const UriBufLen: nat := 128
  const UserBufLen: nat := 64
  const PassBufLen: nat := 128

  /** `pat` occurs in `s` at position `k`. */
  predicate OccursAt(s: string, pat: string, k: nat) {
    k + |pat| <= |s| && s[k..k + |pat|] == pat
  }

  /** `strstr(s + i, pat)`: the first position at or after `i` where `pat` occurs. */
  function FindFrom(s: string, pat: string, i: nat): (r: Option<nat>)
    requires i <= |s|
    ensures r.Some? ==> i <= r.value && OccursAt(s, pat, r.value)
    ensures r.Some? ==> forall k :: i <= k < r.value ==> !OccursAt(s, pat, k)
    ensures r.None? ==> forall k :: i <= k ==> !OccursAt(s, pat, k)
    decreases |s| - i
  {
    if i + |pat| > |s| then None
    else if s[i..i + |pat|] == pat then Some(i)
    else FindFrom(s, pat, i + 1)
  }

  /**
   * `is_valid_mqtt_uri`: a non-empty URI with scheme `mqtt://` or
   * `mqtts://` whose host part, after the first "://", starts with a
   * character other than the end, ':' and '/'.
   */
  function IsValidUri(uri: Option<string>): (r: bool)
    ensures r ==> uri.Some? && |uri.value| > 7
  {
    match uri
    case None => false
    case Some(s) =>
      if s == [] || s[0] == '\0' then false
      else if !(HasPrefix(s, "mqtt://") || HasPrefix(s, "mqtts://")) then false
      else match FindFrom(s, "://", 0)
        case None => false
        case Some(i) =>
          var host := i + 3;
          !(host >= |s| || s[host] == '\0' || s[host] == ':' || s[host] == '/')
  }

  /** The host part may start at `i`. */
  predicate HostStarts(s: string, i: nat) {
    i < |s| && s[i] != '\0' && s[i] != ':' && s[i] != '/'
  }

  /** An independent reading of the rule: a scheme and then the start of a host. */
  predicate SchemeThenHost(s: string) {
    (HasPrefix(s, "mqtt://") && HostStarts(s, 7)) || (HasPrefix(s, "mqtts://") && HostStarts(s, 8))
  }

  /** In a URI starting with a scheme, the first "://" is the one that ends the scheme. */
  lemma SeparatorEndsScheme(s: string, scheme: string)
    requires scheme == "mqtt" || scheme == "mqtts"
    requires HasPrefix(s, scheme + "://")
    ensures FindFrom(s, "://", 0) == Some(|scheme|)
  {
    assert s[..|scheme|] == scheme;
    assert s[|scheme|..|scheme| + 3] == "://";
    assert OccursAt(s, "://", |scheme|);
    forall k | 0 <= k < |scheme|
      ensures !OccursAt(s, "://", k)
    {
      assert s[k..k + 3][0] == s[k] == scheme[k];
    }
  }

  /** URI validation accepts exactly a scheme followed by the start of a host. */
  lemma IsValidUriIff(s: string)
    ensures IsValidUri(Some(s)) <==> SchemeThenHost(s)
  {
    if HasPrefix(s, "mqtt://") {
      assert s[0] == 'm' && s[4] == ':';
      assert !HasPrefix(s, "mqtts://");
      SeparatorEndsScheme(s, "mqtt");
    } else if HasPrefix(s, "mqtts://") {
      assert s[0] == 'm';
      SeparatorEndsScheme(s, "mqtts");
    }
  }

  /** The stored broker address and credentials. */
  datatype Config = Config(uri: string, username: string, password: string)

  const EmptyConfig := Config("", "", "")

  /**
   * `network_mqtt_config_prepare`: an invalid URI is refused and nothing
   * stored changes; otherwise the URI and credentials are stored cut to
   * their buffers, an absent username or password as the empty string.
   */
  function Prepare(cfg: Config, uri: Option<string>, username: Option<string>, password: Option<string>): (r: (bool, Config))
    ensures r.0 <==> IsValidUri(uri)
    ensures !r.0 ==> r.1 == cfg
    ensures r.0 ==> HasPrefix(uri.value, r.1.uri) && |r.1.uri| == Min(|uri.value|, UriBufLen - 1)
    ensures r.0 ==> r.1.username == (if username.None? then [] else Truncate(username.value, UserBufLen - 1))
    ensures r.0 ==> r.1.password == (if password.None? then [] else Truncate(password.value, PassBufLen - 1))
  {
    if !IsValidUri(uri) then (false, cfg)
    else
      (true, Config(Truncate(uri.value, UriBufLen - 1),
                    if username.None? then [] else Truncate(username.value, UserBufLen - 1),
                    if password.None? then [] else Truncate(password.value, PassBufLen - 1)))
  }

  function Min(a: nat, b: nat): nat {
    if a <= b then a else b
  }

  /** `network_mqtt_config_username_or_null`: NULL exactly when no username is stored. */
  function UsernameOrNull(cfg: Config): (r: Option<string>)
    ensures r.None? <==> cfg.username == []
    ensures r.Some? ==> r.value == cfg.username
  {
    if cfg.username == [] then None else Some(cfg.username)
  }

  /** `network_mqtt_config_password_or_null`: NULL exactly when no password is stored. */
  function PasswordOrNull(cfg: Config): (r: Option<string>)
    ensures r.None? <==> cfg.password == []
    ensures r.Some? ==> r.value == cfg.password
  {
    if cfg.password == [] then None else Some(cfg.password)
  }

  /** A stored URI is still accepted by URI validation: cutting it to 127 characters keeps scheme and host start. */
  lemma StoredUriIsValid(cfg: Config, uri: Option<string>, username: Option<string>, password: Option<string>)
    requires Prepare(cfg, uri, username, password).0
    ensures IsValidUri(Some(Prepare(cfg, uri, username, password).1.uri))
  {
    var s := uri.value;
    var t := Prepare(cfg, uri, username, password).1.uri;
    IsValidUriIff(s);
    IsValidUriIff(t);
    assert t == s[..|t|] && |t| >= 9 ==> t[..8] == s[..8];
    if |t| < 9 {
      assert t == s;
    }
  }

  /**
   * What the client is given as credentials is what the caller passed, cut
   * to the buffer, with an empty or absent one passed as NULL.
   */
  lemma CredentialsPassedThrough(cfg: Config, uri: string, username: Option<string>, password: Option<string>)
    requires IsValidUri(Some(uri))
    ensures var stored := Prepare(cfg, Some(uri), username, password).1;
      (UsernameOrNull(stored).None? <==> username.None? || username.value == [])
      && (username.Some? && username.value != [] ==> UsernameOrNull(stored) == Some(Truncate(username.value, UserBufLen - 1)))
      && (PasswordOrNull(stored).None? <==> password.None? || password.value == [])
      && (password.Some? && password.value != [] ==> PasswordOrNull(stored) == Some(Truncate(password.value, PassBufLen - 1)))
  {
  }
}
