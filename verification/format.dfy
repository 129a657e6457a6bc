/** The two string helpers of the bot (index.js): maskAccount, which hides
    the middle of an account name for the log, and formatSeconds, which
    renders a duration as HH:MM:SS. */
module Format {
  import opened Base

  // ---------------------------------------------------------------------------
  // maskAccount
  // ---------------------------------------------------------------------------

  /** The index of the first `c` in `s`, or `|s|` when there is none. */
  function IndexOf(s: string, c: char): (r: nat)
    ensures r <= |s| && c !in s[..r]
    ensures r < |s| ==> s[r] == c
    ensures r == |s| <==> c !in s
  {
    if |s| == 0 then 0
    else if s[0] == c then 0
    else
      var r := 1 + IndexOf(s[1..], c);
      assert s[..r] == [s[0]] + s[1..][..r - 1];
      r
  }

  /** `account.split('@')[0]`: the text before the first '@'. */
  function LocalPart(account: string): (r: string)
    ensures r <= account && '@' !in r
    ensures |r| == |account| || account[|r|] == '@'
  {
    account[..IndexOf(account, '@')]
  }

  /** `account.split('@')[1]`: the text between the first '@' and the next
      one (or the end); only meaningful when the account has an '@'. */
  function DomainPart(account: string): (r: string)
    ensures '@' !in r
    ensures '@' !in account ==> r == ""
    ensures '@' in account ==>
      var start := |LocalPart(account)| + 1;
      && start + |r| <= |account| && account[start..start + |r|] == r
      && (start + |r| == |account| || account[start + |r|] == '@')
  {
    var i := IndexOf(account, '@');
    if i == |account| then ""
    else
      var rest := account[i + 1..];
      rest[..IndexOf(rest, '@')]
  }

  /** `s.slice(0, 3) + '***' + s.slice(-3)`: the first three and the last
      three characters around three stars; a string of three characters or
      fewer appears whole on both sides. */
  function MaskPart(s: string): (r: string)
    ensures |s| <= 3 ==> r == s + "***" + s
    ensures |s| >= 3 ==> |r| == 9 && r[..3] == s[..3] && r[3..6] == "***" && r[6..] == s[|s| - 3..]
    ensures forall c :: c in r && c != '*' ==> c in s
  {
    var keep := if |s| < 3 then |s| else 3;
    s[..keep] + "***" + s[|s| - keep..]
  }

  /** maskAccount: an account with an '@' keeps its domain and has its local
      part masked; one without is masked whole. */
  function MaskAccount(account: string): (r: string)
    ensures '@' in r <==> '@' in account
    ensures '@' !in account ==> r == MaskPart(account)
  {
    if '@' in account then MaskPart(LocalPart(account)) + "@" + DomainPart(account)
    else MaskPart(account)
  }

  /** Masking keeps the domain: reading the masked name back gives the same
      domain and the masked local part. */
  lemma MaskKeepsDomain(account: string)
    ensures '@' in account ==>
      && DomainPart(MaskAccount(account)) == DomainPart(account)
      && LocalPart(MaskAccount(account)) == MaskPart(LocalPart(account))
  {
    if '@' in account {
      var m := MaskPart(LocalPart(account));
      var d := DomainPart(account);
      assert '@' !in m;
      assert '@' !in d;
      assert MaskAccount(account) == m + ['@'] + d;
      AccountParts(m, d);
      assert d[..IndexOf(d, '@')] == d;
    }
  }

  /** Only the first two '@'-separated parts survive: whatever follows a
      second '@' is dropped from the log. */
  lemma MaskDropsLaterParts(local: string, domain: string, tail: string)
    requires '@' !in local && '@' !in domain
    ensures MaskAccount(local + "@" + domain + "@" + tail) == MaskAccount(local + "@" + domain)
    ensures MaskAccount(local + "@" + domain) == MaskPart(local) + "@" + domain
  {
    var rest := domain + ['@'] + tail;
    assert local + "@" + domain + "@" + tail == local + ['@'] + rest;
    assert local + "@" + domain == local + ['@'] + domain;
    AccountParts(local, rest);
    AccountParts(local, domain);
    assert rest[..|domain|] == domain;
    IndexOfAt(rest, domain, '@');
    assert domain[..IndexOf(domain, '@')] == domain;
  }

  /** An account whose first '@' follows `local` splits into `local` and the
      part of `rest` before its own first '@'. */
  lemma AccountParts(local: string, rest: string)
    requires '@' !in local
    ensures var a := local + ['@'] + rest;
      '@' in a && LocalPart(a) == local && DomainPart(a) == rest[..IndexOf(rest, '@')]
  {
    var a := local + ['@'] + rest;
    assert a[|local|] == '@';
    assert a[..|local|] == local;
    IndexOfAt(a, local, '@');
    assert a[|local| + 1..] == rest;
  }

  /** The first `c` of `a + [c] + b`, when `a` holds none, is at `|a|`. */
  lemma IndexOfAt(s: string, a: string, c: char)
    requires |a| < |s| && s[..|a|] == a && s[|a|] == c && c !in a
    ensures IndexOf(s, c) == |a|
  {
  }

  // ---------------------------------------------------------------------------
  // formatSeconds
  // ---------------------------------------------------------------------------

  /** Hours, minutes and seconds of a duration. */
  datatype Clock = Clock(hours: nat, minutes: nat, seconds: nat)

  /** The duration a clock reading stands for. */
  function Seconds(c: Clock): nat {
    c.hours * 3600 + c.minutes * 60 + c.seconds
  }

  /** The floor divisions of formatSeconds: the parts add back up to the
      duration, and minutes and seconds stay below 60. */
  function Decompose(total: nat): (c: Clock)
    ensures Seconds(c) == total
    ensures c.minutes < 60 && c.seconds < 60
  {
    Clock(total / 3600, (total % 3600) / 60, total % 60)
  }

  /** The decomposition is the only one with minutes and seconds below 60. */
  lemma DecomposeUnique(total: nat, c: Clock)
    requires Seconds(c) == total
    requires c.minutes < 60 && c.seconds < 60
    ensures Decompose(total) == c
  {
    var d := Decompose(total);
    var lo := c.minutes * 60 + c.seconds;
    var lo' := d.minutes * 60 + d.seconds;
    assert 0 <= lo < 3600 && 0 <= lo' < 3600;
    DivModUnique(total, 3600, c.hours, lo);
    DivModUnique(total, 3600, d.hours, lo');
    DivModUnique(lo, 60, c.minutes, c.seconds);
    DivModUnique(lo, 60, d.minutes, d.seconds);
  }

  /** The decimal digit for `d`. */
  function DigitChar(d: nat): char
    requires d < 10
  {
    "0123456789"[d]
  }

  predicate IsDigit(c: char) {
    '0' <= c <= '9'
  }

  predicate AllDigits(s: string) {
    forall k :: 0 <= k < |s| ==> IsDigit(s[k])
  }

  /** `n.toString()` for a natural number: its decimal digits, most
      significant first, without leading zeros. */
  function Decimal(n: nat): (s: string)
    ensures |s| >= 1 && AllDigits(s)
    ensures |s| == 1 <==> n < 10
    ensures s[0] == '0' ==> n == 0
    decreases n
  {
    if n < 10 then [DigitChar(n)]
    else Decimal(n / 10) + [DigitChar(n % 10)]
  }

  /** The value of a string of decimal digits. */
  function DecimalValue(s: string): nat
    requires AllDigits(s)
    decreases |s|
  {
    if |s| == 0 then 0
    else DecimalValue(s[..|s| - 1]) * 10 + (s[|s| - 1] as int - '0' as int)
  }

  /** Reading the digits back gives the number. */
  lemma {:induction false} DecimalRoundTrip(n: nat)
    ensures DecimalValue(Decimal(n)) == n
    decreases n
  {
    var s := Decimal(n);
    if n >= 10 {
      DecimalRoundTrip(n / 10);
      assert s[..|s| - 1] == Decimal(n / 10);
    }
  }

  /** A leading zero does not change the value. */
  lemma {:induction false} LeadingZero(s: string)
    requires AllDigits(s)
    ensures AllDigits("0" + s) && DecimalValue("0" + s) == DecimalValue(s)
    decreases |s|
  {
    if |s| > 0 {
      var t := "0" + s;
      assert t[..|t| - 1] == "0" + s[..|s| - 1];
      LeadingZero(s[..|s| - 1]);
    }
  }

  /** `padStart(2, '0')`: left-pad with zeros to two characters. */
  function Pad2(s: string): (r: string)
    ensures |r| == if |s| >= 2 then |s| else 2
    ensures AllDigits(s) ==> AllDigits(r)
    ensures |r| >= |s| && forall k :: 0 <= k < |s| ==> r[|r| - |s| + k] == s[k]
    ensures forall k :: 0 <= k < |r| - |s| ==> r[k] == '0'
  {
    if |s| == 0 then "00"
    else if |s| == 1 then "0" + s
    else s
  }

  /** formatSeconds for a duration of whole seconds: HH:MM:SS, each part
      zero-padded to two digits (hours may take more). */
  function FormatSeconds(total: nat): (r: string)
    ensures |r| >= 8 && r[|r| - 6] == ':' && r[|r| - 3] == ':'
    ensures forall k :: 0 <= k < |r| && k != |r| - 6 && k != |r| - 3 ==> IsDigit(r[k])
    ensures total < 360000 ==> |r| == 8
    ensures total >= 36000 ==> r[0] != '0'
  {
    var c := Decompose(total);
    RenderShape(c);
    Render(c)
  }

  /** The three parts of a clock reading, padded and joined by ':'. */
  function Render(c: Clock): string {
    Pad2(Decimal(c.hours)) + ":" + Pad2(Decimal(c.minutes)) + ":" + Pad2(Decimal(c.seconds))
  }

  /** The shape of a rendered clock reading whose minutes and seconds are
      below 60. */
  lemma RenderShape(c: Clock)
    requires c.minutes < 60 && c.seconds < 60
    ensures var r := Render(c);
      && |r| >= 8 && r[|r| - 6] == ':' && r[|r| - 3] == ':'
      && (forall k :: 0 <= k < |r| && k != |r| - 6 && k != |r| - 3 ==> IsDigit(r[k]))
      && (c.hours < 100 ==> |r| == 8)
      && (c.hours >= 10 ==> r[0] != '0')
  {
    var h := Pad2(Decimal(c.hours));
    var m := Pad2(Decimal(c.minutes));
    var sec := Pad2(Decimal(c.seconds));
    PaddedPart(c.hours);
    PaddedPart(c.minutes);
    PaddedPart(c.seconds);
    ClockShape(h, m, sec);
  }

  /** A padded part is a run of at least two digits, exactly two below 100,
      and starts with a non-zero digit from 10 on. */
  lemma PaddedPart(n: nat)
    ensures var p := Pad2(Decimal(n));
      && AllDigits(p) && |p| >= 2
      && (n < 100 ==> |p| == 2)
      && (n >= 10 ==> p[0] != '0')
  {
  }

  /** Three digit runs, the last two of two digits, joined by ':' have their
      colons three and six places from the end and digits everywhere else. */
  lemma ClockShape(h: string, m: string, sec: string)
    requires AllDigits(h) && AllDigits(m) && AllDigits(sec) && |m| == 2 && |sec| == 2
    ensures var r := h + ":" + m + ":" + sec;
      && |r| == |h| + 6 && r[|r| - 6] == ':' && r[|r| - 3] == ':'
      && (|h| > 0 ==> r[0] == h[0])
      && forall k :: 0 <= k < |r| && k != |r| - 6 && k != |r| - 3 ==> IsDigit(r[k])
  {
    var r := h + ":" + m + ":" + sec;
    forall k | 0 <= k < |r| && k != |r| - 6 && k != |r| - 3 ensures IsDigit(r[k]) {
      if k < |h| {
        assert r[k] == h[k];
      } else if k < |h| + 3 {
        assert r[k] == m[k - |h| - 1];
      } else {
        assert r[k] == sec[k - |h| - 4];
      }
    }
  }

  /** The parts before and after the first `c`, if there is one. */
  function SplitFirst(s: string, c: char): Option<(string, string)> {
    var i := IndexOf(s, c);
    if i == |s| then None else Some((s[..i], s[i + 1..]))
  }

  /** The value of a non-empty run of decimal digits. */
  function ReadDigits(s: string): Option<nat> {
    if s == [] || !AllDigits(s) then None else Some(DecimalValue(s))
  }

  /** Reads an `H:M:S` string back to a clock reading, when each part is a
      non-empty run of digits. */
  function ParseClock(s: string): Option<Clock> {
    match SplitFirst(s, ':')
    case None => None
    case Some((h, rest)) =>
      match SplitFirst(rest, ':')
      case None => None
      case Some((m, sec)) =>
        match (ReadDigits(h), ReadDigits(m), ReadDigits(sec))
        case (Some(x), Some(y), Some(z)) => Some(Clock(x, y, z))
        case _ => None
  }

  /** The padded decimal of `n` is a non-empty run of digits worth `n`. */
  lemma PaddedDecimal(n: nat)
    ensures var p := Pad2(Decimal(n));
      |p| >= 1 && AllDigits(p) && ':' !in p && DecimalValue(p) == n
  {
    var d := Decimal(n);
    DecimalRoundTrip(n);
    if |d| == 1 {
      LeadingZero(d);
    }
    var p := Pad2(d);
    assert AllDigits(p);
    assert ':' !in p by {
      forall k | 0 <= k < |p| ensures p[k] != ':' {
        assert IsDigit(p[k]);
      }
    }
  }

  /** The first `c` of `a + [c] + b`, when `a` holds none, splits the
      string back into `a` and `b`. */
  lemma SplitAtFirst(a: string, b: string, c: char)
    requires c !in a
    ensures SplitFirst(a + [c] + b, c) == Some((a, b))
  {
    var s := a + [c] + b;
    assert s[..|a|] == a;
    IndexOfAt(s, a, c);
    assert s[|a| + 1..] == b;
  }

  /** A clock string of three non-empty digit runs reads back as their
      values. */
  lemma ParseClockParts(a: string, b: string, d: string)
    requires |a| >= 1 && AllDigits(a) && ':' !in a
    requires |b| >= 1 && AllDigits(b) && ':' !in b
    requires |d| >= 1 && AllDigits(d)
    ensures ParseClock(a + ":" + b + ":" + d) == Some(Clock(DecimalValue(a), DecimalValue(b), DecimalValue(d)))
  {
    var rest := b + [':'] + d;
    var s := a + ":" + b + ":" + d;
    assert s == a + [':'] + rest by {
      assert a + ":" + b + ":" + d == a + [':'] + (b + [':'] + d);
    }
    assert SplitFirst(s, ':') == Some((a, rest)) by {
      SplitAtFirst(a, rest, ':');
    }
    assert SplitFirst(rest, ':') == Some((b, d)) by {
      SplitAtFirst(b, d, ':');
    }
    ReadDigitsOf(a);
    ReadDigitsOf(b);
    ReadDigitsOf(d);
  }

  lemma ReadDigitsOf(s: string)
    requires |s| >= 1 && AllDigits(s)
    ensures ReadDigits(s) == Some(DecimalValue(s))
  {
  }

  /** Reading the formatted duration back gives its hours, minutes and
      seconds, which add up to the duration. */
  lemma FormatSecondsRoundTrip(total: nat)
    ensures ParseClock(FormatSeconds(total)) == Some(Decompose(total))
    ensures Seconds(ParseClock(FormatSeconds(total)).value) == total
  {
    var c := Decompose(total);
    PaddedDecimal(c.hours);
    PaddedDecimal(c.minutes);
    PaddedDecimal(c.seconds);
    ParseClockParts(Pad2(Decimal(c.hours)), Pad2(Decimal(c.minutes)), Pad2(Decimal(c.seconds)));
  }
}
