/** Account gating and the per-account pipeline of the bot (index.js):
    which accounts main launches, and the login, register, loops ordering of
    processAccounts. */
module Pipeline {
  import opened Base
  import opened HttpRetry
  import opened Session
  import Proxy

  /** One entry of the accounts file. `email` is `None` when the entry has
      no string `Email` field; a missing `Password` is the empty string. */
  datatype Account = Account(email: Option<string>, password: string)

  /** The property key the entry's e-mail becomes: a missing one is the key
      "undefined". */
  function EmailKey(email: Option<string>): (k: string)
    ensures email.Some? ==> k == email.value
    ensures email.None? ==> k == "undefined"
  {
    match email
    case Some(e) => e
    case None => "undefined"
  }

  /** main skips an entry with an e-mail that lacks '@' or with an empty
      password. */
  predicate IsValid(a: Account) {
    a.email.Some? && '@' in a.email.value && a.password != ""
  }

  /** Number of valid entries with index in [i, hi). */
  function CountValid(accounts: seq<Account>, i: nat, hi: nat): nat
    requires i <= hi <= |accounts|
    decreases hi - i
  {
    if i == hi then 0
    else (if IsValid(accounts[i]) then 1 else 0) + CountValid(accounts, i + 1, hi)
  }

  /** The body of a registerWebnodes response. */
  datatype RegisterResponse = RegisterResponse(code: int, msg: string)

  /** The steps processAccounts takes for one account: the login call, the
      registration call with its bearer token, and the start of the refresh
      and WebSocket loops. */
  datatype Step = Login | Register(bearer: string) | StartLoops

  /** What processAccounts did and the token triple it left. */
  datatype PipelineRun = PipelineRun(steps: seq<Step>, session: Option<Tokens>)

  /** processAccounts for one account, after the reachability probe let it
      through: log in; only on success register the device with the fresh
      access token; only on success start the two loops. */
  function ProcessAccount(login: seq<Attempt<AuthResponse>>, register: seq<Attempt<RegisterResponse>>): (r: PipelineRun)
    requires |login| >= DefaultRetries && |register| >= DefaultRetries
    ensures 1 <= |r.steps| <= 3 && r.steps[0] == Login
    ensures |r.steps| >= 2 <==> ProcessAuthLogin(None, login).0
    ensures |r.steps| >= 2 ==>
      r.session.Some? && r.steps[1] == Register(r.session.value.access) && Accepted(Retry(login, DefaultRetries).response)
    ensures |r.steps| == 3 <==>
      && ProcessAuthLogin(None, login).0
      && var reg := Retry(register, DefaultRetries).response;
         reg.Some? && reg.value.code == 0
    ensures |r.steps| == 3 ==> r.steps[2] == StartLoops
    ensures r.session.Some? <==> ProcessAuthLogin(None, login).0
    ensures r.session == ProcessAuthLogin(None, login).1
  {
    var (loggedIn, session) := ProcessAuthLogin(None, login);
    if !loggedIn then PipelineRun([Login], session)
    else
      var reg := Retry(register, DefaultRetries).response;
      var registered := reg.Some? && reg.value.code == 0;
      if !registered then PipelineRun([Login, Register(session.value.access)], session)
      else PipelineRun([Login, Register(session.value.access), StartLoops], session)
  }

  /** The steps of a pipeline follow each other in one fixed order: the loops
      never start without a registration, and a registration never happens
      without a login before it. */
  lemma PipelineOrder(login: seq<Attempt<AuthResponse>>, register: seq<Attempt<RegisterResponse>>)
    requires |login| >= DefaultRetries && |register| >= DefaultRetries
    ensures var r := ProcessAccount(login, register);
      forall i, j :: 0 <= i < j < |r.steps| ==> StepRank(r.steps[i]) < StepRank(r.steps[j])
    ensures var r := ProcessAccount(login, register);
      StartLoops in r.steps ==> exists b :: Register(b) in r.steps
  {
    var r := ProcessAccount(login, register);
    if |r.steps| == 3 {
      assert r.steps[1] in r.steps;
    }
  }

  /** Position of a step in the pipeline. */
  function StepRank(s: Step): nat {
    match s
    case Login => 0
    case Register(_) => 1
    case StartLoops => 2
  }

  // ---------------------------------------------------------------------------
  // main
  // ---------------------------------------------------------------------------

  /** A pipeline main starts: the entry's index in the file, its e-mail, and
      whether it runs through a proxy (`!!account_proxies[email]`). */
  datatype Launch = Launch(index: nat, email: string, useProxy: bool)

  /** The property keys of the entries, in file order. */
  function Emails(accounts: seq<Account>): (r: seq<string>)
    ensures |r| == |accounts| && forall i :: 0 <= i < |r| ==> r[i] == EmailKey(accounts[i].email)
  {
    seq(|accounts|, i requires 0 <= i < |accounts| => EmailKey(accounts[i].email))
  }

  /** The index of the first entry without an e-mail, or the number of
      entries when every entry has one. */
  function FirstMalformed(accounts: seq<Account>, i: nat): (f: nat)
    requires i <= |accounts|
    ensures i <= f <= |accounts|
    ensures forall j :: i <= j < f ==> accounts[j].email.Some?
    ensures f < |accounts| ==> accounts[f].email.None?
    decreases |accounts| - i
  {
    if i == |accounts| || accounts[i].email.None? then i
    else FirstMalformed(accounts, i + 1)
  }

  /** The indices in [i, hi) of the entries the launch loop of main does not
      skip, in file order. */
  function ValidIn(accounts: seq<Account>, i: nat, hi: nat): (r: seq<nat>)
    requires i <= hi <= |accounts|
    ensures forall k :: 0 <= k < |r| ==> i <= r[k] < hi && IsValid(accounts[r[k]])
    ensures forall k, l :: 0 <= k < l < |r| ==> r[k] < r[l]
    decreases hi - i
  {
    if i == hi then []
    else if IsValid(accounts[i]) then [i] + ValidIn(accounts, i + 1, hi)
    else ValidIn(accounts, i + 1, hi)
  }

  /** No valid entry in the range is left out, and there is one index per
      valid entry. */
  lemma {:induction false} ValidInComplete(accounts: seq<Account>, i: nat, hi: nat)
    requires i <= hi <= |accounts|
    ensures |ValidIn(accounts, i, hi)| == CountValid(accounts, i, hi)
    ensures forall j :: i <= j < hi && IsValid(accounts[j]) ==> j in ValidIn(accounts, i, hi)
    decreases hi - i
  {
    if i < hi {
      ValidInComplete(accounts, i + 1, hi);
    }
  }

  /** At most every entry of the range is valid. */
  lemma {:induction false} ValidInCount(accounts: seq<Account>, i: nat, hi: nat)
    requires i <= hi <= |accounts|
    ensures |ValidIn(accounts, i, hi)| <= hi - i
    decreases hi - i
  {
    if i < hi {
      ValidInCount(accounts, i + 1, hi);
    }
  }

  /** The launch record main builds for the valid entry at `index`. */
  function LaunchOf(accounts: seq<Account>, byEmail: map<string, Option<string>>, index: nat): (r: Launch)
    requires index < |accounts| && IsValid(accounts[index])
    ensures r.index == index && Some(r.email) == accounts[index].email
    ensures r.useProxy <==> r.email in byEmail && byEmail[r.email].Some?
  {
    var email := accounts[index].email.value;
    Launch(index, email, email in byEmail && byEmail[email].Some?)
  }

  /** The launch records for the valid entries at the indices `valid`, in
      the same order. */
  function Launches(accounts: seq<Account>, byEmail: map<string, Option<string>>, valid: seq<nat>): (r: seq<Launch>)
    requires forall k :: 0 <= k < |valid| ==> valid[k] < |accounts| && IsValid(accounts[valid[k]])
    ensures |r| == |valid|
    ensures forall k :: 0 <= k < |r| ==> r[k].index == valid[k] && Some(r[k].email) == accounts[valid[k]].email
  {
    seq(|valid|, k requires 0 <= k < |valid| => LaunchOf(accounts, byEmail, valid[k]))
  }

  /** Everything main decides before the pipelines run: the proxy
      assignment, the pipelines started, the entries reported invalid, and
      whether main threw before reaching the end of the file. */
  datatype MainRun = MainRun(assignment: Proxy.Assignment, launched: seq<Launch>, skipped: nat, aborted: bool)

  /** The launch loop of main over the entries below `hi`: one pipeline per
      valid entry, in file order; the others are reported and skipped. */
  function LaunchLoop(accounts: seq<Account>, proxies: seq<string>, hi: nat, aborted: bool): (r: MainRun)
    requires 0 < |accounts| && hi <= |accounts|
    ensures r.assignment == Proxy.AssignAccounts(Emails(accounts), proxies) && r.aborted == aborted
    ensures |r.launched| == CountValid(accounts, 0, hi) && r.skipped == hi - |r.launched|
    ensures forall k :: 0 <= k < |r.launched| ==>
      && r.launched[k].index < hi && IsValid(accounts[r.launched[k].index])
      && Some(r.launched[k].email) == accounts[r.launched[k].index].email
    ensures forall k, l :: 0 <= k < l < |r.launched| ==> r.launched[k].index < r.launched[l].index
    ensures forall j :: 0 <= j < hi && IsValid(accounts[j]) ==>
      exists k :: 0 <= k < |r.launched| && r.launched[k].index == j
  {
    var assignment := Proxy.AssignAccounts(Emails(accounts), proxies);
    var valid := ValidIn(accounts, 0, hi);
    var launched := Launches(accounts, assignment.byEmail, valid);
    ValidInCount(accounts, 0, hi);
    ValidInComplete(accounts, 0, hi);
    LaunchesCover(launched, valid, hi, accounts);
    MainRun(assignment, launched, hi - |launched|, aborted)
  }

  /** Every index of `valid` is the index of the launch at the same place. */
  lemma LaunchesCover(launched: seq<Launch>, valid: seq<nat>, hi: nat, accounts: seq<Account>)
    requires hi <= |accounts|
    requires |launched| == |valid| && forall k :: 0 <= k < |valid| ==> launched[k].index == valid[k]
    requires forall j :: 0 <= j < hi && IsValid(accounts[j]) ==> j in valid
    ensures forall j :: 0 <= j < hi && IsValid(accounts[j]) ==>
      exists k :: 0 <= k < |launched| && launched[k].index == j
  {
    forall j | 0 <= j < hi && IsValid(accounts[j])
      ensures exists k :: 0 <= k < |launched| && launched[k].index == j
    {
      var k :| 0 <= k < |valid| && valid[k] == j;
      assert launched[k].index == j;
    }
  }

  /** main as written: with no accounts it stops at once; otherwise it
      assigns proxies to all entries in file order, then runs the launch
      loop, which throws at the first entry without an e-mail
      (`email.includes` on undefined). The pipelines started before it keep
      running; main rethrows and no later entry is looked at. */
  function Main(accounts: seq<Account>, proxies: seq<string>): (r: MainRun)
    ensures |accounts| == 0 ==> r.launched == [] && r.skipped == 0 && !r.aborted
    ensures |accounts| > 0 ==> r.assignment == Proxy.AssignAccounts(Emails(accounts), proxies)
    ensures r.aborted <==> exists j :: 0 <= j < |accounts| && accounts[j].email.None?
    ensures r.skipped + |r.launched| == FirstMalformed(accounts, 0)
    ensures forall k :: 0 <= k < |r.launched| ==>
      && r.launched[k].index < FirstMalformed(accounts, 0) && IsValid(accounts[r.launched[k].index])
      && Some(r.launched[k].email) == accounts[r.launched[k].index].email
    ensures forall k, l :: 0 <= k < l < |r.launched| ==> r.launched[k].index < r.launched[l].index
  {
    if |accounts| == 0 then MainRun(Proxy.AssignAccounts([], []), [], 0, false)
    else
      var f := FirstMalformed(accounts, 0);
      LaunchLoop(accounts, proxies, f, f < |accounts|)
  }

  /** main with the missing e-mail treated like any other invalid entry:
      it reports and skips it and carries on to the end of the file. */
  function MainSkippingMalformed(accounts: seq<Account>, proxies: seq<string>): (r: MainRun)
    ensures |accounts| == 0 ==> r.launched == [] && r.skipped == 0
    ensures |accounts| > 0 ==> r.assignment == Proxy.AssignAccounts(Emails(accounts), proxies)
    ensures !r.aborted
    ensures forall k :: 0 <= k < |r.launched| ==>
      && r.launched[k].index < |accounts| && IsValid(accounts[r.launched[k].index])
      && Some(r.launched[k].email) == accounts[r.launched[k].index].email
    ensures forall k, l :: 0 <= k < l < |r.launched| ==> r.launched[k].index < r.launched[l].index
  {
    if |accounts| == 0 then MainRun(Proxy.AssignAccounts([], []), [], 0, false)
    else LaunchLoop(accounts, proxies, |accounts|, false)
  }

  /** As written, every valid entry before the first entry without an e-mail
      is launched, none after it is, and the skip tally counts the invalid
      entries before it. */
  lemma MainLaunchesValid(accounts: seq<Account>, proxies: seq<string>)
    ensures var r := Main(accounts, proxies);
      var f := FirstMalformed(accounts, 0);
      && (forall j :: 0 <= j < f && IsValid(accounts[j]) ==>
            exists k :: 0 <= k < |r.launched| && r.launched[k].index == j)
      && |r.launched| == CountValid(accounts, 0, f)
      && r.skipped == f - CountValid(accounts, 0, f)
  {
  }

  /** With missing e-mails skipped, every valid entry is launched, one
      pipeline per valid entry, and the skip tally counts the invalid ones. */
  lemma MainSkippingLaunchesValid(accounts: seq<Account>, proxies: seq<string>)
    ensures var r := MainSkippingMalformed(accounts, proxies);
      && (forall j :: 0 <= j < |accounts| && IsValid(accounts[j]) ==>
            exists k :: 0 <= k < |r.launched| && r.launched[k].index == j)
      && |r.launched| == CountValid(accounts, 0, |accounts|)
      && r.skipped == |accounts| - CountValid(accounts, 0, |accounts|)
  {
    if |accounts| > 0 {
      var r := LaunchLoop(accounts, proxies, |accounts|, false);
      assert r == MainSkippingMalformed(accounts, proxies);
    }
  }

  /** When every entry has an e-mail, main as written and main with the
      skip agree. */
  lemma MainAgreesWhenWellFormed(accounts: seq<Account>, proxies: seq<string>)
    requires forall j :: 0 <= j < |accounts| ==> accounts[j].email.Some?
    ensures Main(accounts, proxies) == MainSkippingMalformed(accounts, proxies)
  {
  }

  /** An entry without an e-mail in first place stops main before the valid
      entry after it: nothing is launched, while skipping it would launch the
      second entry. */
  lemma MissingEmailStopsLaunches()
    ensures var accounts := [Account(None, "pw"), Account(Some("a@b"), "pw")];
      && Main(accounts, []).launched == []
      && Main(accounts, []).aborted
      && MainSkippingMalformed(accounts, []).launched == [Launch(1, "a@b", false)]
  {
    var accounts := [Account(None, "pw"), Account(Some("a@b"), "pw")];
    assert FirstMalformed(accounts, 0) == 0;
    assert IsValid(accounts[1]);
    assert ValidIn(accounts, 0, 2) == [1];
  }

  /** A pipeline launched by the launch loop runs through a proxy exactly
      when the proxy list is non-empty; invalid entries still consume a proxy,
      so the entry at file index j whose e-mail does not recur later uses
      proxy j mod L. */
  lemma LoopProxy(accounts: seq<Account>, proxies: seq<string>, hi: nat, aborted: bool, k: nat)
    requires 0 < |accounts| && hi <= |accounts|
    requires k < |LaunchLoop(accounts, proxies, hi, aborted).launched|
    ensures var r := LaunchLoop(accounts, proxies, hi, aborted);
      var l := r.launched[k];
      && (l.useProxy <==> |proxies| > 0)
      && (|proxies| > 0 && Proxy.LastOccurrence(Emails(accounts), l.index) ==>
            r.assignment.byEmail[l.email] == Some(Proxy.NormalizeScheme(proxies[l.index % |proxies|])))
  {
    var r := LaunchLoop(accounts, proxies, hi, aborted);
    var l := r.launched[k];
    var emails := Emails(accounts);
    Proxy.AssignKeys(emails, proxies);
    Proxy.AssignRoundRobin(emails, proxies);
    Proxy.AssignLastEntryWins(emails, proxies);
    assert emails[l.index] == l.email;
    // the last entry with the same e-mail decides the proxy
    var j := LastIndexOf(emails, l.index, |emails|);
    assert r.assignment.byEmail[l.email] == r.assignment.given[j];
  }

  /** main as written: a launched pipeline runs through a proxy exactly when
      the proxy list is non-empty, and the entry at file index j whose e-mail
      does not recur later uses proxy j mod L. */
  lemma LaunchedProxy(accounts: seq<Account>, proxies: seq<string>, k: nat)
    requires k < |Main(accounts, proxies).launched|
    ensures var l := Main(accounts, proxies).launched[k];
      l.useProxy <==> |proxies| > 0
    ensures var l := Main(accounts, proxies).launched[k];
      var r := Main(accounts, proxies);
      |proxies| > 0 && Proxy.LastOccurrence(Emails(accounts), l.index) ==>
        r.assignment.byEmail[l.email] == Some(Proxy.NormalizeScheme(proxies[l.index % |proxies|]))
  {
    var f := FirstMalformed(accounts, 0);
    LoopProxy(accounts, proxies, f, f < |accounts|, k);
  }

  /** The same for the corrected main. */
  lemma LaunchedProxySkipping(accounts: seq<Account>, proxies: seq<string>, k: nat)
    requires k < |MainSkippingMalformed(accounts, proxies).launched|
    ensures var l := MainSkippingMalformed(accounts, proxies).launched[k];
      l.useProxy <==> |proxies| > 0
    ensures var l := MainSkippingMalformed(accounts, proxies).launched[k];
      var r := MainSkippingMalformed(accounts, proxies);
      |proxies| > 0 && Proxy.LastOccurrence(Emails(accounts), l.index) ==>
        r.assignment.byEmail[l.email] == Some(Proxy.NormalizeScheme(proxies[l.index % |proxies|]))
  {
    LoopProxy(accounts, proxies, |accounts|, false, k);
  }

  /** The last index below `hi` that holds the e-mail of index `i`, when no
      index from `hi` on holds it. */
  function LastIndexOf(emails: seq<string>, i: nat, hi: nat): (j: nat)
    requires i < hi <= |emails|
    requires forall t :: hi <= t < |emails| ==> emails[t] != emails[i]
    ensures i <= j < hi && emails[j] == emails[i] && Proxy.LastOccurrence(emails, j)
    decreases hi
  {
    if emails[hi - 1] == emails[i] then hi - 1
    else LastIndexOf(emails, i, hi - 1)
  }
}
