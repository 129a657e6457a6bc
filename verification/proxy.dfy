/** Proxy handling of the bot (index.js): scheme normalisation of the lines of
    the proxy file, the round-robin cursor that hands one proxy to each
    account, and the classification that turns a proxy string into the
    transport the HTTP and WebSocket clients use. */
module Proxy {
  import opened Base

  // ---------------------------------------------------------------------------
  // Scheme normalisation (checkProxySchemes)
  // ---------------------------------------------------------------------------

  /** The scheme prefixes a proxy line may already carry. */
  const Schemes: seq<string> := ["http://", "https://", "socks4://", "socks5://"]

  /** The scheme given to a proxy line that carries none of `Schemes`. */
  const DefaultScheme: string := "http://"

  predicate HasKnownScheme(s: string) {
    Schemes[0] <= s || Schemes[1] <= s || Schemes[2] <= s || Schemes[3] <= s
  }

  /** checkProxySchemes: a line that already names a scheme is kept, any other
      line is taken as a bare `host:port` of an HTTP proxy. Normalisation only
      ever prepends the default scheme. */
  function NormalizeScheme(s: string): (r: string)
    ensures HasKnownScheme(r)
    ensures HasKnownScheme(s) ==> r == s
    ensures r == s || r == DefaultScheme + s
  {
    if HasKnownScheme(s) then s
    else
      assert Schemes[0] <= DefaultScheme + s;
      DefaultScheme + s
  }

  /** Normalising twice is normalising once. */
  lemma NormalizeIdempotent(s: string)
    ensures NormalizeScheme(NormalizeScheme(s)) == NormalizeScheme(s)
  {
  }

  // ---------------------------------------------------------------------------
  // Round-robin assignment (assignProxyForAccount and the loop in main)
  // ---------------------------------------------------------------------------

  /** The proxy list and the cursor `proxy_index` into it. */
  datatype Pool = Pool(proxies: seq<string>, cursor: nat) {
    /** The cursor points into a non-empty list and stays 0 for an empty one. */
    predicate Valid() {
      cursor == 0 || cursor < |proxies|
    }
  }

  /** assignProxyForAccount: hand out the proxy under the cursor, normalised,
      and advance the cursor modulo the list length; an empty list yields no
      proxy and leaves the cursor alone. */
  function Assign(pool: Pool): (r: (Option<string>, Pool))
    requires pool.Valid()
    ensures r.1.Valid() && r.1.proxies == pool.proxies
    ensures r.0.None? <==> |pool.proxies| == 0
    ensures |pool.proxies| == 0 ==> r.1 == pool
    ensures r.0.Some? ==> HasKnownScheme(r.0.value)
  {
    if |pool.proxies| == 0 then (None, pool)
    else (Some(NormalizeScheme(pool.proxies[pool.cursor])), pool.(cursor := (pool.cursor + 1) % |pool.proxies|))
  }

  /** What the assignment loop of main leaves behind: the proxy handed to each
      account in file order, the `account_proxies` map keyed by e-mail, and
      the pool with its final cursor. */
  datatype Assignment = Assignment(given: seq<Option<string>>, byEmail: map<string, Option<string>>, pool: Pool)

  /** No later entry of `emails` repeats the e-mail at index `i`. */
  predicate LastOccurrence(emails: seq<string>, i: nat)
    requires i < |emails|
  {
    forall j :: i < j < |emails| ==> emails[j] != emails[i]
  }

  /** The proxy-assignment loop of main: every account, valid or not, takes one
      proxy from the pool in file order, and `account_proxies` records it under
      the account's e-mail. */
  function AssignAccounts(emails: seq<string>, proxies: seq<string>): (r: Assignment)
    ensures |r.given| == |emails|
    ensures r.pool.Valid() && r.pool.proxies == proxies
    decreases |emails|
  {
    if |emails| == 0 then Assignment([], map[], Pool(proxies, 0))
    else
      var n := |emails| - 1;
      var prev := AssignAccounts(emails[..n], proxies);
      var step := Assign(prev.pool);
      Assignment(prev.given + [step.0], prev.byEmail[emails[n] := step.0], step.1)
  }

  /** The cursor ends at the number of accounts modulo the list length, and
      stays at 0 when there are no proxies. */
  lemma {:induction false} AssignCursor(emails: seq<string>, proxies: seq<string>)
    ensures var r := AssignAccounts(emails, proxies);
      && (|proxies| > 0 ==> r.pool.cursor == |emails| % |proxies|)
      && (|proxies| == 0 ==> r.pool.cursor == 0)
    decreases |emails|
  {
    if |emails| > 0 && |proxies| > 0 {
      var n, len := |emails| - 1, |proxies|;
      AssignCursor(emails[..n], proxies);
      var prev := AssignAccounts(emails[..n], proxies);
      assert |emails[..n]| == n;
      var next := Assign(prev.pool).1;
      assert AssignAccounts(emails, proxies).pool == next;
      assert next.cursor == (n % len + 1) % len;
      ModSucc(n, len);
    }
  }

  /** Round robin: the k-th account receives the k-th proxy modulo the list
      length, normalised; with no proxies every account receives none. */
  lemma {:induction false} AssignRoundRobin(emails: seq<string>, proxies: seq<string>)
    ensures var r := AssignAccounts(emails, proxies);
      && (|proxies| > 0 ==>
            forall i :: 0 <= i < |emails| ==> r.given[i] == Some(NormalizeScheme(proxies[i % |proxies|])))
      && (|proxies| == 0 ==> forall i :: 0 <= i < |emails| ==> r.given[i].None?)
    decreases |emails|
  {
    if |emails| > 0 {
      var n := |emails| - 1;
      AssignRoundRobin(emails[..n], proxies);
      AssignCursor(emails[..n], proxies);
      var r := AssignAccounts(emails, proxies);
      var prev := AssignAccounts(emails[..n], proxies);
      var step := Assign(prev.pool);
      assert r.given == prev.given + [step.0];
      if |proxies| > 0 {
        assert step.0 == Some(NormalizeScheme(proxies[n % |proxies|]));
        forall i | 0 <= i < |emails| ensures r.given[i] == Some(NormalizeScheme(proxies[i % |proxies|])) {
          if i < n {
            assert r.given[i] == prev.given[i];
          }
        }
      } else {
        forall i | 0 <= i < |emails| ensures r.given[i].None? {
          if i < n {
            assert r.given[i] == prev.given[i];
          }
        }
      }
    }
  }

  /** `account_proxies` holds exactly the e-mails of the file. */
  lemma {:induction false} AssignKeys(emails: seq<string>, proxies: seq<string>)
    ensures AssignAccounts(emails, proxies).byEmail.Keys == set i | 0 <= i < |emails| :: emails[i]
    decreases |emails|
  {
    if |emails| > 0 {
      var n := |emails| - 1;
      AssignKeys(emails[..n], proxies);
      var prev := AssignAccounts(emails[..n], proxies);
      assert AssignAccounts(emails, proxies).byEmail.Keys == prev.byEmail.Keys + {emails[n]};
      assert (set i | 0 <= i < |emails| :: emails[i]) == (set i | 0 <= i < n :: emails[..n][i]) + {emails[n]} by {
        assert forall i :: 0 <= i < n ==> emails[..n][i] == emails[i];
      }
    }
  }

  /** An account whose e-mail recurs in the file keeps, in `account_proxies`,
      the proxy handed to its last entry. */
  lemma {:induction false} AssignLastEntryWins(emails: seq<string>, proxies: seq<string>)
    ensures var r := AssignAccounts(emails, proxies);
      forall i :: 0 <= i < |emails| && LastOccurrence(emails, i) ==>
        emails[i] in r.byEmail && r.byEmail[emails[i]] == r.given[i]
    decreases |emails|
  {
    if |emails| > 0 {
      var n := |emails| - 1;
      AssignLastEntryWins(emails[..n], proxies);
      var r := AssignAccounts(emails, proxies);
      var prev := AssignAccounts(emails[..n], proxies);
      var p := Assign(prev.pool).0;
      AssignStep(emails, proxies);
      forall i | 0 <= i < |emails| && LastOccurrence(emails, i)
        ensures emails[i] in r.byEmail && r.byEmail[emails[i]] == r.given[i]
      {
        if i < n {
          LastOccurrencePrefix(emails, i);
          assert r.given[i] == prev.given[i];
        } else {
          assert r.given[i] == p;
        }
      }
    }
  }

  /** One turn of the assignment loop appends the proxy handed out and
      records it under the entry's e-mail. */
  lemma AssignStep(emails: seq<string>, proxies: seq<string>)
    requires |emails| > 0
    ensures var n := |emails| - 1;
      var prev := AssignAccounts(emails[..n], proxies);
      var p := Assign(prev.pool).0;
      && AssignAccounts(emails, proxies).byEmail == prev.byEmail[emails[n] := p]
      && AssignAccounts(emails, proxies).given == prev.given + [p]
  {
  }

  /** A last occurrence before the final entry stays one in the prefix
      without that entry, and the final entry holds another e-mail. */
  lemma LastOccurrencePrefix(emails: seq<string>, i: nat)
    requires i < |emails| - 1 && LastOccurrence(emails, i)
    ensures var n := |emails| - 1;
      emails[..n][i] == emails[i] && LastOccurrence(emails[..n], i) && emails[n] != emails[i]
  {
    var n := |emails| - 1;
    forall j | i < j < n ensures emails[..n][j] != emails[..n][i] {
      assert emails[..n][j] == emails[j];
    }
  }

  /** The successor of a residue is the residue of the successor. */
  lemma ModSucc(n: nat, len: nat)
    requires len > 0
    ensures (n % len + 1) % len == (n + 1) % len
  {
    var q, r := n / len, n % len;
    assert n == q * len + r;
    if r + 1 < len {
      DivModUnique(r + 1, len, 0, r + 1);
      DivModUnique(n + 1, len, q, r + 1);
    } else {
      assert (q + 1) * len == q * len + len;
      DivModUnique(len, len, 1, 0);
      DivModUnique(n + 1, len, q + 1, 0);
    }
  }

  // ---------------------------------------------------------------------------
  // Classification (buildProxyConfig)
  // ---------------------------------------------------------------------------

  /** The transport buildProxyConfig builds, without the agent objects: no
      proxy, a SOCKS agent for the whole string, an HTTP agent for `host` with
      `user:password` credentials, or an HTTP agent for the whole string. */
  datatype ProxyConfig =
    | Direct
    | Socks(uri: string)
    | HttpWithAuth(host: string, user: string, password: string)
    | Http(uri: string)
  {
    /** The `proxyUrl` field returned beside the agent. */
    function ProxyUrl(): Option<string> {
      match this
      case Direct => None
      case Socks(_) => None
      case HttpWithAuth(host, _, _) => Some(DefaultScheme + host)
      case Http(uri) => Some(uri)
    }
  }

  /** The error thrown for a proxy string that is neither SOCKS nor HTTP. */
  datatype ProxyError = UnsupportedProxyType

  /** The three groups captured by the credentials pattern
      `http://(.*?):(.*?)@(.*)`. */
  datatype Credentials = Credentials(user: string, password: string, hostPort: string)

  /** The literal that opens the credentials pattern. */
  const HttpMarker: string := "http://"

  /** The literal `http://` occurs at index `k` of `s`. */
  predicate MarkerAt(s: string, k: nat) {
    k + |HttpMarker| <= |s| && s[k..k + |HttpMarker|] == HttpMarker
  }

  /** Independent description of a match of `http://(.*?):(.*?)@(.*)` that
      starts at index `k` of `s`: the literal, the user, ':', the password, '@'
      and the host follow each other from `k` on, no group crosses a line end,
      the lazy user group stops at its first ':', the lazy password group
      stops at its first '@', and the greedy host group runs to the end of the
      line. */
  predicate MatchesAt(s: string, k: nat, m: Credentials) {
    var start := k + |HttpMarker|;
    var colon := start + |m.user|;
    var at := colon + 1 + |m.password|;
    var end := at + 1 + |m.hostPort|;
    && end <= |s|
    && MarkerAt(s, k)
    && s[start..colon] == m.user && s[colon] == ':'
    && s[colon + 1..at] == m.password && s[at] == '@'
    && s[at + 1..end] == m.hostPort
    && ':' !in m.user && '@' !in m.password
    && SingleLine(m.user) && SingleLine(m.password) && SingleLine(m.hostPort)
    && (end == |s| || IsLineTerminator(s[end]))
  }

  /** The first index at or after `from` that holds `c`, unless a line ends
      first. */
  function FindOnLine(s: string, from: nat, c: char): (r: Option<nat>)
    requires from <= |s|
    requires !IsLineTerminator(c)
    ensures r.Some? ==>
      from <= r.value < |s| && s[r.value] == c && c !in s[from..r.value] && SingleLine(s[from..r.value])
    decreases |s| - from
  {
    if from == |s| then None
    else if s[from] == c then Some(from)
    else if IsLineTerminator(s[from]) then None
    else
      var r := FindOnLine(s, from + 1, c);
      assert r.Some? ==> s[from..r.value] == [s[from]] + s[from + 1..r.value];
      r
  }

  /** FindOnLine finds the first `c` of the line. */
  lemma {:induction false} FindOnLineFinds(s: string, from: nat, c: char, k: nat)
    requires from <= k < |s| && s[k] == c && !IsLineTerminator(c)
    requires c !in s[from..k] && SingleLine(s[from..k])
    ensures FindOnLine(s, from, c) == Some(k)
    decreases k - from
  {
    if from < k {
      assert s[from] == s[from..k][0];
      assert s[from + 1..k] == s[from..k][1..];
      FindOnLineFinds(s, from + 1, c, k);
    }
  }

  /** The index at which the line that holds `from` ends. */
  function LineEnd(s: string, from: nat): (e: nat)
    requires from <= |s|
    ensures from <= e <= |s| && SingleLine(s[from..e])
    ensures e < |s| ==> IsLineTerminator(s[e])
    decreases |s| - from
  {
    if from == |s| || IsLineTerminator(s[from]) then from
    else
      var e := LineEnd(s, from + 1);
      assert s[from..e] == [s[from]] + s[from + 1..e];
      e
  }

  /** A single-line stretch that ends the line is what LineEnd finds. */
  lemma {:induction false} LineEndFinds(s: string, from: nat, e: nat)
    requires from <= e <= |s| && SingleLine(s[from..e])
    requires e < |s| ==> IsLineTerminator(s[e])
    ensures LineEnd(s, from) == e
    decreases e - from
  {
    if from < e {
      assert s[from] == s[from..e][0];
      assert s[from + 1..e] == s[from..e][1..];
      LineEndFinds(s, from + 1, e);
    }
  }

  /** The match of the credentials pattern that starts at index `k`, if any. */
  function MatchAt(s: string, k: nat): Option<Credentials>
    requires k <= |s|
  {
    if !MarkerAt(s, k) then None
    else
      var start := k + |HttpMarker|;
      match FindOnLine(s, start, ':')
      case None => None
      case Some(colon) =>
        match FindOnLine(s, colon + 1, '@')
        case None => None
        case Some(at) => Some(Credentials(s[start..colon], s[colon + 1..at], s[at + 1..LineEnd(s, at + 1)]))
  }

  /** MatchAt agrees with the match description in both directions: what it
      returns is a match, and a match that starts at `k` is what it returns,
      so the captured groups are determined by the input. */
  lemma MatchAtExact(s: string, k: nat, m: Credentials)
    requires k <= |s|
    ensures MatchAt(s, k) == Some(m) <==> MatchesAt(s, k, m)
  {
    if MatchesAt(s, k, m) {
      MatchAtComplete(s, k, m);
    }
    MatchAtSound(s, k);
  }

  /** A match that starts at `k` is what MatchAt returns. */
  lemma MatchAtComplete(s: string, k: nat, m: Credentials)
    requires k <= |s| && MatchesAt(s, k, m)
    ensures MatchAt(s, k) == Some(m)
  {
    var start := k + |HttpMarker|;
    var colon := start + |m.user|;
    var at := colon + 1 + |m.password|;
    var end := at + 1 + |m.hostPort|;
    GroupThenChar(s, start, m.user, ':');
    GroupThenChar(s, colon + 1, m.password, '@');
    GroupToLineEnd(s, at + 1, m.hostPort);
    MatchAtFromParts(s, k, colon, at, end);
    assert Credentials(s[start..colon], s[colon + 1..at], s[at + 1..end]) == m;
  }

  /** A single-line group free of `c` and followed by `c` is what FindOnLine
      skips. */
  lemma GroupThenChar(s: string, from: nat, g: string, c: char)
    requires from + |g| < |s| && s[from..from + |g|] == g && s[from + |g|] == c
    requires c !in g && SingleLine(g) && !IsLineTerminator(c)
    ensures FindOnLine(s, from, c) == Some(from + |g|)
  {
    FindOnLineFinds(s, from, c, from + |g|);
  }

  /** A single-line group that runs to a line end is what LineEnd skips. */
  lemma GroupToLineEnd(s: string, from: nat, g: string)
    requires from + |g| <= |s| && s[from..from + |g|] == g && SingleLine(g)
    requires from + |g| == |s| || IsLineTerminator(s[from + |g|])
    ensures LineEnd(s, from) == from + |g|
  {
    LineEndFinds(s, from, from + |g|);
  }

  /** MatchAt assembles the groups from the three searches it makes. */
  lemma MatchAtFromParts(s: string, k: nat, colon: nat, at: nat, end: nat)
    requires k <= |s| && MarkerAt(s, k)
    requires FindOnLine(s, k + |HttpMarker|, ':') == Some(colon)
    requires FindOnLine(s, colon + 1, '@') == Some(at)
    requires LineEnd(s, at + 1) == end
    ensures MatchAt(s, k) == Some(Credentials(s[k + |HttpMarker|..colon], s[colon + 1..at], s[at + 1..end]))
  {
  }

  /** What MatchAt returns is a match. */
  lemma MatchAtSound(s: string, k: nat)
    requires k <= |s|
    ensures MatchAt(s, k).Some? ==> MatchesAt(s, k, MatchAt(s, k).value)
  {
  }

  /** String.prototype.match with the unanchored credentials pattern: the
      leftmost start index at or after `i` where a match exists. */
  function MatchFrom(s: string, i: nat): (r: Option<Credentials>)
    requires i <= |s|
    ensures r.Some? ==> exists k :: i <= k <= |s| && MatchesAt(s, k, r.value)
    decreases |s| - i
  {
    MatchAtSound(s, i);
    if i == |s| then MatchAt(s, i)
    else
      match MatchAt(s, i)
      case Some(m) => Some(m)
      case None => MatchFrom(s, i + 1)
  }

  /** True when the literal `http://` occurs nowhere in `s`. */
  predicate NoHttpMarker(s: string) {
    forall k :: 0 <= k <= |s| ==> !MarkerAt(s, k)
  }

  /** Without the literal `http://` the credentials pattern cannot match. */
  lemma {:induction false} NoMarkerNoMatch(s: string, i: nat)
    requires i <= |s| && NoHttpMarker(s)
    ensures MatchFrom(s, i).None?
    decreases |s| - i
  {
    if i < |s| {
      NoMarkerNoMatch(s, i + 1);
    }
  }

  /** The search is leftmost and complete: it finds nothing only when no
      match starts at or after `i`, and what it finds starts at an index
      before which no match starts. */
  lemma {:induction false} MatchFromLeftmost(s: string, i: nat)
    requires i <= |s|
    ensures MatchFrom(s, i).None? ==> forall k, m :: i <= k <= |s| ==> !MatchesAt(s, k, m)
    ensures MatchFrom(s, i).Some? ==>
      exists k :: i <= k <= |s| && MatchesAt(s, k, MatchFrom(s, i).value)
        && forall j, m :: i <= j < k ==> !MatchesAt(s, j, m)
    decreases |s| - i
  {
    forall m | MatchesAt(s, i, m) ensures MatchAt(s, i) == Some(m) {
      MatchAtExact(s, i, m);
    }
    MatchAtSound(s, i);
    if i < |s| && MatchAt(s, i).None? {
      MatchFromLeftmost(s, i + 1);
      var r := MatchFrom(s, i);
      assert r == MatchFrom(s, i + 1);
      if r.Some? {
        var k :| i + 1 <= k <= |s| && MatchesAt(s, k, r.value)
          && forall j, m :: i + 1 <= j < k ==> !MatchesAt(s, j, m);
        assert forall j, m :: i <= j < k ==> !MatchesAt(s, j, m);
      }
    } else if MatchAt(s, i).Some? {
      assert MatchesAt(s, i, MatchFrom(s, i).value);
    }
  }

  /** Some match of the credentials pattern starts somewhere in `s`. */
  ghost predicate HasMatch(s: string) {
    exists k: nat, m :: MatchesAt(s, k, m)
  }

  /** `m` is the match that starts at the leftmost index where one starts:
      the groups `String.prototype.match` captures. */
  ghost predicate LeftmostMatch(s: string, m: Credentials) {
    exists k: nat :: MatchesAt(s, k, m) && forall j: nat, m' :: j < k ==> !MatchesAt(s, j, m')
  }

  /** The `http` branch of buildProxyConfig: the host with split-out
      credentials when the pattern matches, the whole string otherwise. */
  function HttpConfig(s: string): (c: ProxyConfig)
    ensures c.HttpWithAuth? || c == Http(s)
    ensures c.HttpWithAuth? <==> HasMatch(s)
    ensures c.HttpWithAuth? ==> LeftmostMatch(s, Credentials(c.user, c.password, c.host))
  {
    MatchFromLeftmost(s, 0);
    match MatchFrom(s, 0)
    case Some(m) =>
      assert LeftmostMatch(s, m);
      HttpWithAuth(m.hostPort, m.user, m.password)
    case None => Http(s)
  }

  /** buildProxyConfig: no proxy for a missing or empty string, SOCKS for a
      string that starts with `socks`, an HTTP agent for one that starts with
      `http` (with split-out credentials exactly when the credentials pattern
      matches somewhere in it, taken from its leftmost match), and an error
      for anything else. */
  function BuildProxyConfig(proxy: Option<string>): (r: Result<ProxyConfig, ProxyError>)
    ensures r == Ok(Direct) <==> proxy.None? || proxy.value == ""
    ensures r.Err? <==>
      proxy.Some? && proxy.value != "" && !("socks" <= proxy.value) && !("http" <= proxy.value)
    ensures r.Ok? && r.value.Socks? <==> proxy.Some? && "socks" <= proxy.value
    ensures r.Ok? && r.value.Socks? ==> r.value.uri == proxy.value && r.value.ProxyUrl().None?
    ensures proxy.Some? && "http" <= proxy.value ==> (r.Ok? && r.value.HttpWithAuth? <==> HasMatch(proxy.value))
    ensures r.Ok? && r.value.HttpWithAuth? ==>
      && "http" <= proxy.value
      && r.value.ProxyUrl() == Some(DefaultScheme + r.value.host)
      && LeftmostMatch(proxy.value, Credentials(r.value.user, r.value.password, r.value.host))
    ensures r.Ok? && r.value.Http? ==>
      "http" <= proxy.value && r.value.uri == proxy.value && r.value.ProxyUrl() == proxy && !HasMatch(proxy.value)
  {
    match proxy
    case None => Ok(Direct)
    case Some(s) =>
      if s == "" then Ok(Direct)
      else if "socks" <= s then
        assert !("http" <= s) by { assert s[0] == 's'; }
        Ok(Socks(s))
      else if "http" <= s then Ok(HttpConfig(s))
      else Err(UnsupportedProxyType)
  }

  /** `http://u:p@h`, with no ':' in `u`, no '@' in `p` and no line end
      anywhere, gives the credentials `u:p` for host `h` and the proxy URL
      `http://h`. */
  lemma HttpCredentialsSplit(u: string, p: string, h: string)
    requires ':' !in u && '@' !in p
    requires SingleLine(u) && SingleLine(p) && SingleLine(h)
    ensures var r := BuildProxyConfig(Some(HttpMarker + u + ":" + p + "@" + h));
      r == Ok(HttpWithAuth(h, u, p)) && r.value.ProxyUrl() == Some(DefaultScheme + h)
  {
    var m := Credentials(u, p, h);
    var s := HttpMarker + u + ":" + p + "@" + h;
    var colon := |HttpMarker| + |u|;
    var at := colon + 1 + |p|;
    assert s[..|HttpMarker|] == HttpMarker;
    assert s[|HttpMarker|..colon] == u;
    assert s[colon + 1..at] == p;
    assert s[at + 1..] == h;
    assert MatchesAt(s, 0, m);
    MatchAtExact(s, 0, m);
    assert "http" <= s;
    assert !("socks" <= s) by { assert s[0] == 'h'; }
  }

  /** An `http`-prefixed string without the literal `http://` is used whole:
      its proxy URL is the input itself. */
  lemma HttpWithoutMarkerKeptWhole(s: string)
    requires "http" <= s && NoHttpMarker(s)
    ensures BuildProxyConfig(Some(s)) == Ok(Http(s))
    ensures BuildProxyConfig(Some(s)).value.ProxyUrl() == Some(s)
  {
    NoMarkerNoMatch(s, 0);
    assert !("socks" <= s) by { assert s[0] == 'h'; }
  }

  /** In particular an `https://` proxy with credentials, `https://u:p@h`,
      keeps its credentials inside the URL rather than splitting them out,
      when no '/' follows the scheme. */
  lemma HttpsCredentialsKeptWhole(u: string, p: string, h: string)
    requires '/' !in u && '/' !in p && '/' !in h
    ensures var s := "https://" + u + ":" + p + "@" + h;
      BuildProxyConfig(Some(s)) == Ok(Http(s))
  {
    var s := "https://" + u + ":" + p + "@" + h;
    var rest := u + ":" + p + "@" + h;
    assert s == "https://" + rest;
    assert '/' !in rest by {
      forall k | 0 <= k < |rest| ensures rest[k] != '/' {
        if k < |u| {
          assert rest[k] == u[k];
        } else if k == |u| {
        } else if k < |u| + 1 + |p| {
          assert rest[k] == p[k - |u| - 1];
        } else if k == |u| + 1 + |p| {
        } else {
          assert rest[k] == h[k - |u| - 2 - |p|];
        }
      }
    }
    forall k | 0 <= k <= |s| ensures !MarkerAt(s, k) {
      if k + |HttpMarker| <= |s| {
        if k == 0 {
          assert s[4] == "https://"[4];
          assert s[k..k + |HttpMarker|][4] != HttpMarker[4];
        } else if k < 8 {
          assert s[k..k + |HttpMarker|][0] != HttpMarker[0];
        } else {
          assert s[k + 5] == rest[k - 3];
          assert s[k..k + |HttpMarker|][5] != HttpMarker[5];
        }
      }
    }
    HttpWithoutMarkerKeptWhole(s);
  }

  /** Every proxy the round-robin cursor hands out is one buildProxyConfig
      accepts: normalisation never produces an unsupported proxy type. */
  lemma NormalizedProxySupported(s: string)
    ensures BuildProxyConfig(Some(NormalizeScheme(s))).Ok?
    ensures !BuildProxyConfig(Some(NormalizeScheme(s))).value.Direct?
  {
    var r := NormalizeScheme(s);
    var i :| 0 <= i < |Schemes| && Schemes[i] <= r;
    assert r[..|Schemes[i]|] == Schemes[i];
    if i < 2 {
      assert r[..4] == Schemes[i][..4];
      assert "http" <= r;
    } else {
      assert r[..5] == Schemes[i][..5];
      assert "socks" <= r;
    }
  }
}
