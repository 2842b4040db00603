/**
 * The webhook endpoints (app/routers/webhooks.py): the Stripe checkout
 * handler that drives the bounty ledger, the GitHub sender gate, the
 * signature check and the GitHub issue handler that reconciles state and
 * title. Each handler is a method on the database, proved against a
 * function that gives its response and the tables it leaves.
 */
module Webhooks {
  import opened Wrappers
  import opened Strings
  import opened Models
  import opened Payloads
  import opened RepositoriesCrud
  import opened IssuesCrud
  import opened IpAddress
  import opened Store

  newtype byte = b: int | 0 <= b < 256

  /** An `HTTPException` (or a bare error response): status code and detail. */
  datatype HttpError = HttpError(status: int, detail: string)

  /** What a check leaves: carry on, or answer with the error. */
  datatype Outcome = Pass | Fail(error: HttpError)

  /** A handler's answer: `{"message": ...}`, `{}`, or an error. */
  datatype Response = Message(text: string) | EmptyObject | Error(error: HttpError)

  /** A handler's answer together with the tables it leaves. */
  datatype Handled = Handled(tables: Tables, response: Response)

  const MissingSignature := HttpError(403, "x-hub-signature-256 header is missing!")
  const SignatureMismatch := HttpError(403, "Request signatures didn't match!")
  const InvalidSourceAddress := HttpError(400, "Could not hook sender ip address")
  const ForbiddenSource := HttpError(403, "Not a GitHub hooks ip address")
  const BadJson := HttpError(400, "Bad JSON.")
  /** `HTTPResponse(status=400)`: a status without a detail. */
  const BadRequest := HttpError(400, "")
  /** The server's answer to an exception no handler catches. */
  const InternalServerError := HttpError(500, "Internal Server Error")

  const NonEligibleMessage := "Received an event for a non-eligible for bounty issue."
  const CheckoutCompleted := "checkout.session.completed"

  /** The message for an eligible issue: the issue number in decimal between a fixed lead and tail. */
  function IssueReceivedMessage(number: int): (s: string)
    ensures |s| == 30 + |IntToDecimal(number)|
    ensures s[..20] == "An event for issue #" && s[|s| - 10..] == " received."
    ensures s[20..|s| - 10] == IntToDecimal(number)
  {
    var digits := IntToDecimal(number);
    var s := "An event for issue #" + digits + " received.";
    assert s[..20] == "An event for issue #";
    assert s[20..|s| - 10] == digits;
    assert s[|s| - 10..] == " received.";
    s
  }

  // ---------------------------------------------------------------- Stripe

  /**
   * webhook_stripe_post_checkout on a snapshot. An undecodable body gets a
   * bare 400. A `checkout.session.completed` event adds `amount_total // 100`
   * whole currency units to the issue its metadata names; when that issue or
   * its repository does not exist the ledger dereferences a missing row,
   * which ends the request with a server error and no change. Every other
   * event type is acknowledged without a change.
   */
  function StripeCheckoutOutcome(t: Tables, event: Option<StripeEvent>): (r: Handled)
    requires t.Valid()
    ensures r.tables.Valid()
    ensures event.None? ==> r == Handled(t, Error(BadRequest))
    ensures event.Some? && event.value.eventType != CheckoutCompleted ==> r == Handled(t, EmptyObject)
    ensures event.Some? && event.value.eventType == CheckoutCompleted ==>
      var e := event.value;
      var target := LookupIssue(t, e.session.metadata.repositoryName, e.session.metadata.issueNumber);
      && (target.None? ==> r == Handled(t, Error(InternalServerError)))
      && (target.Some? ==> r == Handled(AddBounty(t, target.value, e.session.amountTotal / 100), EmptyObject))
    ensures r.tables.repositories == t.repositories && |r.tables.issues| == |t.issues|
    ensures t.BountiesNonNegative() && (event.Some? ==> event.value.session.amountTotal >= 0) ==>
      r.tables.BountiesNonNegative()
  {
    match event
    case None => Handled(t, Error(BadRequest))
    case Some(e) =>
      if e.eventType == CheckoutCompleted then
        var metadata := e.session.metadata;
        match LookupIssue(t, metadata.repositoryName, metadata.issueNumber)
        case None => Handled(t, Error(InternalServerError))
        case Some(row) => Handled(AddBounty(t, row, e.session.amountTotal / 100), EmptyObject)
      else Handled(t, EmptyObject)
  }

  /** Python's `amount // 100` is the whole number of hundreds, rounded down, also for negative amounts. */
  lemma WholeUnits(amount: int)
    ensures 100 * (amount / 100) <= amount < 100 * (amount / 100) + 100
  {
  }

  /**
   * The Stripe endpoint. The body's decoding (`json.loads` and
   * `stripe.Event.construct_from`) is given as `event`, None when it failed.
   */
  method WebhookStripePostCheckout(db: Database, event: Option<StripeEvent>) returns (resp: Response)
    requires db.Valid()
    modifies db
    ensures db.Valid()
    ensures Handled(db.Snapshot(), resp) == StripeCheckoutOutcome(old(db.Snapshot()), event)
    ensures (event.None? || event.value.eventType != CheckoutCompleted) ==> unchanged(db)
  {
    if event.None? {
      return Error(BadRequest);
    }
    var e := event.value;
    if e.eventType == CheckoutCompleted {
      var metadata := e.session.metadata;
      var bountyAmount := e.session.amountTotal;
      if LookupIssue(db.Snapshot(), metadata.repositoryName, metadata.issueNumber).None? {
        // bump_bounty_issue reads a field of a row that is not there.
        return Error(InternalServerError);
      }
      db.BumpBountyIssue(metadata.repositoryName, metadata.issueNumber, bountyAmount / 100);
    }
    return EmptyObject;
  }

  // ------------------------------------------------------------ sender gate

  /** Every hook network in `hooks[lo..hi]` is well formed. */
  predicate AllValid(hooks: seq<Network>, lo: nat, hi: nat)
    requires lo <= hi <= |hooks|
  {
    forall j :: lo <= j < hi ==> ValidNetwork(hooks[j])
  }

  /** No hook network in `hooks[lo..hi]` holds the address. */
  predicate NoneContains(hooks: seq<Network>, a: Address, lo: nat, hi: nat)
    requires lo <= hi <= |hooks|
  {
    forall j :: lo <= j < hi ==> !Contains(hooks[j], a)
  }

  /**
   * The loop over the `hooks` networks from index `i` on, for a parsed
   * address: the first network that is malformed or holds the address
   * decides. A malformed one makes `ip_network` raise inside the loop (a
   * server error); one that holds the address lets the request through;
   * when none decides the answer is a 403.
   */
  function HookScan(hooks: seq<Network>, a: Address, i: nat): (r: Outcome)
    requires i <= |hooks|
    ensures r == Pass || r == Fail(ForbiddenSource) || r == Fail(InternalServerError)
    decreases |hooks| - i
  {
    if i == |hooks| then Fail(ForbiddenSource)
    else if !ValidNetwork(hooks[i]) then Fail(InternalServerError)
    else if Contains(hooks[i], a) then Pass
    else HookScan(hooks, a, i + 1)
  }

  /** The scan passes exactly when some network holds the address and every one before it is well formed. */
  lemma {:induction false} HookScanPasses(hooks: seq<Network>, a: Address, i: nat)
    requires i <= |hooks|
    ensures HookScan(hooks, a, i) == Pass <==>
      exists k :: i <= k < |hooks| && Contains(hooks[k], a) && AllValid(hooks, i, k)
    decreases |hooks| - i
  {
    if i < |hooks| {
      HookScanPasses(hooks, a, i + 1);
      if HookScan(hooks, a, i) == Pass {
        if Contains(hooks[i], a) {
          assert AllValid(hooks, i, i);
        } else {
          var k :| i + 1 <= k < |hooks| && Contains(hooks[k], a) && AllValid(hooks, i + 1, k);
          assert AllValid(hooks, i, k);
        }
      }
      if exists k :: i <= k < |hooks| && Contains(hooks[k], a) && AllValid(hooks, i, k) {
        var k :| i <= k < |hooks| && Contains(hooks[k], a) && AllValid(hooks, i, k);
        if k > i && !Contains(hooks[i], a) {
          assert hooks[i] == hooks[i];
          assert AllValid(hooks, i + 1, k);
        }
      }
    }
  }

  /** The scan refuses the sender exactly when every network is well formed and none holds the address. */
  lemma {:induction false} HookScanForbids(hooks: seq<Network>, a: Address, i: nat)
    requires i <= |hooks|
    ensures HookScan(hooks, a, i) == Fail(ForbiddenSource) <==>
      AllValid(hooks, i, |hooks|) && NoneContains(hooks, a, i, |hooks|)
    decreases |hooks| - i
  {
    if i < |hooks| {
      HookScanForbids(hooks, a, i + 1);
    }
  }

  /** The scan fails with a server error exactly when a malformed network comes before any network holding the address. */
  lemma {:induction false} HookScanRaises(hooks: seq<Network>, a: Address, i: nat)
    requires i <= |hooks|
    ensures HookScan(hooks, a, i) == Fail(InternalServerError) <==>
      exists k :: i <= k < |hooks| && !ValidNetwork(hooks[k]) && NoneContains(hooks, a, i, k)
    decreases |hooks| - i
  {
    if i < |hooks| {
      HookScanRaises(hooks, a, i + 1);
      if HookScan(hooks, a, i) == Fail(InternalServerError) {
        if ValidNetwork(hooks[i]) {
          var k :| i + 1 <= k < |hooks| && !ValidNetwork(hooks[k]) && NoneContains(hooks, a, i + 1, k);
          assert NoneContains(hooks, a, i, k);
        } else {
          assert NoneContains(hooks, a, i, i);
        }
      }
      if exists k :: i <= k < |hooks| && !ValidNetwork(hooks[k]) && NoneContains(hooks, a, i, k) {
        var k :| i <= k < |hooks| && !ValidNetwork(hooks[k]) && NoneContains(hooks, a, i, k);
        if k > i && ValidNetwork(hooks[i]) {
          assert NoneContains(hooks, a, i + 1, k);
        }
      }
    }
  }

  /**
   * gate_by_github_ip: with the allow-list switched off every sender passes;
   * otherwise an unparsable client host is a 400, and else the hooks decide.
   */
  function GateOutcome(ipsOnly: bool, host: string, ipv6Parser: string -> Option<U128>, hooks: seq<Network>): (r: Outcome)
    ensures !ipsOnly ==> r == Pass
    ensures ipsOnly && ParseAddress(host, ipv6Parser).None? ==> r == Fail(InvalidSourceAddress)
    ensures ipsOnly && ParseAddress(host, ipv6Parser).Some? ==> r == HookScan(hooks, ParseAddress(host, ipv6Parser).value, 0)
  {
    if !ipsOnly then Pass
    else match ParseAddress(host, ipv6Parser)
      case None => Fail(InvalidSourceAddress)
      case Some(a) => HookScan(hooks, a, 0)
  }

  /** With well-formed hooks the gate passes exactly the addresses some hook network holds, and refuses the rest with a 403. */
  lemma GatePassesExactlyHookAddresses(host: string, ipv6Parser: string -> Option<U128>, hooks: seq<Network>)
    requires forall k :: 0 <= k < |hooks| ==> ValidNetwork(hooks[k])
    requires ParseAddress(host, ipv6Parser).Some?
    ensures var a := ParseAddress(host, ipv6Parser).value;
      && (GateOutcome(true, host, ipv6Parser, hooks) == Pass <==> exists k :: 0 <= k < |hooks| && Contains(hooks[k], a))
      && (GateOutcome(true, host, ipv6Parser, hooks) != Pass ==> GateOutcome(true, host, ipv6Parser, hooks) == Fail(ForbiddenSource))
  {
    var a := ParseAddress(host, ipv6Parser).value;
    HookScanPasses(hooks, a, 0);
    HookScanRaises(hooks, a, 0);
    if exists k :: 0 <= k < |hooks| && Contains(hooks[k], a) {
      var k :| 0 <= k < |hooks| && Contains(hooks[k], a);
      assert AllValid(hooks, 0, k);
    }
  }

  /** A hooks list holding the one network 192.30.252.0/22. */
  const ExampleHooks := [Network(V4, 3223256064, 22)]

  /** A sender inside 192.30.252.0/22 passes. */
  lemma GateAdmitsHookAddress(ipv6Parser: string -> Option<U128>)
    ensures GateOutcome(true, "192.30.252.0", ipv6Parser, ExampleHooks) == Pass
  {
    GitHubDottedQuad();
    HookNetworkExamples();
  }

  /** A sender outside every hook network is refused with a 403. */
  lemma GateRefusesForeignAddress(ipv6Parser: string -> Option<U128>)
    ensures GateOutcome(true, "8.8.8.8", ipv6Parser, ExampleHooks) == Fail(ForbiddenSource)
  {
    ForeignDottedQuad();
    HookNetworkExamples();
  }

  /**
   * A host with neither a dot nor a colon (such as "invalid-ip") is no
   * address, so it is refused with a 400 whatever the hooks are, given an
   * IPv6 parser that, like `ipaddress`, accepts no text without a colon.
   */
  lemma GateRejectsInvalidHost(host: string, ipv6Parser: string -> Option<U128>, hooks: seq<Network>)
    requires forall s :: ':' !in s ==> ipv6Parser(s).None?
    requires '.' !in host && ':' !in host
    ensures GateOutcome(true, host, ipv6Parser, hooks) == Fail(InvalidSourceAddress)
  {
    UndottedTextIsNoIPv4(host);
  }

  /**
   * The gate, run before the GitHub issue handler. The GitHub meta document
   * is fetched anew on every call; its `hooks` list is the parameter.
   */
  method GateByGithubIp(ipsOnly: bool, host: string, ipv6Parser: string -> Option<U128>, hooks: seq<Network>)
    returns (r: Outcome)
    ensures r == GateOutcome(ipsOnly, host, ipv6Parser, hooks)
    ensures !ipsOnly ==> r == Pass
    ensures ipsOnly && ParseAddress(host, ipv6Parser).None? ==> r == Fail(InvalidSourceAddress)
  {
    if !ipsOnly {
      return Pass;
    }
    var srcIp := ParseAddress(host, ipv6Parser);
    if srcIp.None? {
      return Fail(InvalidSourceAddress);
    }
    var a := srcIp.value;
    for i := 0 to |hooks|
      invariant HookScan(hooks, a, i) == HookScan(hooks, a, 0)
    {
      if !ValidNetwork(hooks[i]) {
        return Fail(InternalServerError);
      }
      if Contains(hooks[i], a) {
        return Pass;
      }
    }
    return Fail(ForbiddenSource);
  }

  // -------------------------------------------------------------- signature

  /** `hexdigest()` of a SHA-256 HMAC: 64 lower-case hexadecimal digits. */
  predicate IsLowerHexDigit(c: char) {
    '0' <= c <= '9' || 'a' <= c <= 'f'
  }

  /** `n` zero digits. */
  function Zeros(n: nat): (s: string)
    ensures |s| == n && forall i :: 0 <= i < n ==> s[i] == '0'
  {
    if n == 0 then "" else Zeros(n - 1) + "0"
  }

  type HexDigest = s: string | |s| == 64 && forall i :: 0 <= i < |s| ==> IsLowerHexDigit(s[i])
    witness Zeros(64)

  predicate IsAscii(s: string) {
    forall i :: 0 <= i < |s| ==> s[i] as int < 128
  }

  /** `"sha256=" + hmac.new(secret, body, sha256).hexdigest()`, the HMAC computation given as `hmacHex`. */
  function ExpectedSignature(body: seq<byte>, secret: string, hmacHex: (string, seq<byte>) -> HexDigest): (s: string)
    ensures |s| == 71 && IsAscii(s)
  {
    var digest := hmacHex(secret, body);
    assert forall i :: 0 <= i < |digest| ==> digest[i] as int < 128;
    "sha256=" + digest
  }

  /**
   * verify_signature: a missing or empty header is refused first; a header
   * with a non-ASCII character makes `hmac.compare_digest` raise; otherwise
   * the header must equal the expected signature.
   */
  function VerifySignature(body: seq<byte>, secret: string, signatureHeader: Option<string>,
                           hmacHex: (string, seq<byte>) -> HexDigest): (r: Outcome)
    ensures r == Pass <==> signatureHeader == Some(ExpectedSignature(body, secret, hmacHex))
    ensures r == Fail(MissingSignature) <==> signatureHeader.None? || signatureHeader == Some("")
    ensures r == Fail(SignatureMismatch) <==>
      && signatureHeader.Some? && signatureHeader.value != "" && IsAscii(signatureHeader.value)
      && signatureHeader.value != ExpectedSignature(body, secret, hmacHex)
    ensures r == Fail(InternalServerError) <==>
      signatureHeader.Some? && !IsAscii(signatureHeader.value)
  {
    if signatureHeader.None? || signatureHeader.value == "" then Fail(MissingSignature)
    else
      var expected := ExpectedSignature(body, secret, hmacHex);
      if !IsAscii(signatureHeader.value) then Fail(InternalServerError)
      else if expected != signatureHeader.value then Fail(SignatureMismatch)
      else Pass
  }

  // ------------------------------------------------------------ GitHub issue

  /**
   * webhook_github_issue's conditional writes on the fetched row: the state is written when the
   * payload's state string differs from the stored state's, the title when
   * it differs. Either way the row ends with the payload's state and title.
   */
  function UpdatedFields(issueDb: Issue, p: IssuePayload): (r: Issue)
    ensures r == issueDb.(state := IssueStateToBool(p.state), title := p.title)
  {
    var afterState := if p.state != IssueStateToStr(issueDb.state) then issueDb.(state := IssueStateToBool(p.state)) else issueDb;
    if p.title != afterState.title then afterState.(title := p.title) else afterState
  }

  /**
   * webhook_github_issue's conditional writes on a snapshot: resolve or create the issue, then bring its
   * state and title up to date.
   */
  function ReconcileIssue(t: Tables, p: IssuePayload): (r: Tables)
    requires t.Valid()
    ensures r.Valid()
    ensures var res := ResolveIssue(t, p);
      && r.repositories == res.tables.repositories
      && |r.issues| == |res.tables.issues|
      && r.issues[res.row] == res.tables.issues[res.row].(state := IssueStateToBool(p.state), title := p.title)
      && forall j :: 0 <= j < |r.issues| && j != res.row ==> r.issues[j] == res.tables.issues[j]
    ensures t.BountiesNonNegative() ==> r.BountiesNonNegative()
  {
    var res := ResolveIssue(t, p);
    var updated := UpdatedFields(res.tables.issues[res.row], p);
    ValidAfterRowUpdate(res.tables, res.row, updated);
    res.tables.(issues := res.tables.issues[res.row := updated])
  }

  /** The reconciled tables in closed form: get_issue's tables with the resolved row rewritten. */
  lemma ReconcileUnfold(t: Tables, p: IssuePayload)
    requires t.Valid()
    ensures var res := ResolveIssue(t, p);
      ReconcileIssue(t, p) == res.tables.(issues := res.tables.issues[res.row :=
        res.tables.issues[res.row].(state := IssueStateToBool(p.state), title := p.title)])
  {
  }

  /** Whether reconciling writes the state column. */
  function StateWritten(t: Tables, p: IssuePayload): bool
    requires t.Valid()
  {
    var res := ResolveIssue(t, p);
    p.state != IssueStateToStr(res.tables.issues[res.row].state)
  }

  /** Whether reconciling writes the title column. */
  function TitleWritten(t: Tables, p: IssuePayload): bool
    requires t.Valid()
  {
    var res := ResolveIssue(t, p);
    p.title != res.tables.issues[res.row].title
  }

  /**
   * An issue the database does not have yet is created closed, so an "open"
   * delivery writes its state straight away; the new row carries no bounty.
   */
  lemma NewIssueStateWrite(t: Tables, p: IssuePayload)
    requires t.Valid()
    requires LookupIssue(t, RepoNameFromUrl(p.repositoryUrl), p.number).None?
    ensures StateWritten(t, p) <==> p.state != "closed"
    ensures var r := ReconcileIssue(t, p);
      && |r.issues| == |t.issues| + 1
      && r.issues[|t.issues|].state == (p.state == "open")
      && r.issues[|t.issues|].cumulativeBounty == 0
  {
    var name := RepoNameFromUrl(p.repositoryUrl);
    if FirstRepositoryNamed(t.repositories, name).None? {
      NewRepositoryMeansNewIssue(t, p);
    }
    var repo := ResolveRepository(t, name).repository;
    assert FirstIssueFor(t.issues, repo.id, p.number).None?;
  }

  /**
   * Replaying a payload after it was reconciled changes nothing, and writes
   * no title; it writes no state exactly when the payload's state is "open"
   * or "closed" (any other string is stored as closed and written again).
   */
  lemma ReconcileIdempotent(t: Tables, p: IssuePayload)
    requires t.Valid()
    ensures var r := ReconcileIssue(t, p);
      && ReconcileIssue(r, p) == r
      && !TitleWritten(r, p)
      && (StateWritten(r, p) <==> !(p.state == "open" || p.state == "closed"))
  {
    var row := ResolveIssue(t, p).row;
    var r := ReconcileIssue(t, p);
    ResolveAfterReconcile(t, p);
    StateStringRoundTrip(p.state);
    assert r.issues[row := UpdatedFields(r.issues[row], p)] == r.issues;
  }

  /** After reconciling, get_issue with the same payload finds the reconciled row and adds nothing. */
  lemma ResolveAfterReconcile(t: Tables, p: IssuePayload)
    requires t.Valid()
    ensures ResolveIssue(ReconcileIssue(t, p), p) == IssueResolution(ReconcileIssue(t, p), ResolveIssue(t, p).row)
  {
    var res := ResolveIssue(t, p);
    var r := ReconcileIssue(t, p);
    assert SameKeys(res.tables.issues, r.issues);
    LookupIssueSameKeys(res.tables, r, RepoNameFromUrl(p.repositoryUrl), p.number);
  }

  /**
   * webhook_github_issue after the gate, on a snapshot: the signature is
   * checked first, then the body must decode; an eligible issue is
   * reconciled, any other acknowledged without a change.
   */
  function GithubIssueOutcome(t: Tables, body: seq<byte>, secret: string, signatureHeader: Option<string>,
                              payload: Option<IssuePayload>, hmacHex: (string, seq<byte>) -> HexDigest): (r: Handled)
    requires t.Valid()
    ensures r.tables.Valid()
    ensures var check := VerifySignature(body, secret, signatureHeader, hmacHex);
      check.Fail? ==> r == Handled(t, Error(check.error))
    ensures VerifySignature(body, secret, signatureHeader, hmacHex) == Pass ==>
      && (payload.None? ==> r == Handled(t, Error(BadJson)))
      && (payload.Some? && !IsEligibleForBounty(payload.value) ==> r == Handled(t, Message(NonEligibleMessage)))
      && (payload.Some? && IsEligibleForBounty(payload.value) ==>
            r == Handled(ReconcileIssue(t, payload.value), Message(IssueReceivedMessage(payload.value.number))))
    ensures r.tables != t ==> signatureHeader == Some(ExpectedSignature(body, secret, hmacHex))
  {
    var check := VerifySignature(body, secret, signatureHeader, hmacHex);
    if check.Fail? then Handled(t, Error(check.error))
    else match payload
      case None => Handled(t, Error(BadJson))
      case Some(issue) =>
        if IsEligibleForBounty(issue) then
          Handled(ReconcileIssue(t, issue), Message(IssueReceivedMessage(issue.number)))
        else Handled(t, Message(NonEligibleMessage))
  }

  /**
   * webhook_github_issue's conditional writes on the database: fetch or create the issue row, then
   * write its state and title where they differ from the payload's.
   */
  method ApplyIssueEvent(db: Database, issue: IssuePayload)
    requires db.Valid()
    modifies db
    ensures db.Valid()
    ensures db.Snapshot() == ReconcileIssue(old(db.Snapshot()), issue)
  {
    ghost var t := db.Snapshot();
    var row := db.GetIssue(issue);
    ghost var resolved := db.Snapshot();
    ghost var issueDb := db.issues[row];
    if issue.state != IssueStateToStr(db.issues[row].state) {
      db.issues := db.issues[row := db.issues[row].(state := IssueStateToBool(issue.state))];
    }
    if issue.title != db.issues[row].title {
      db.issues := db.issues[row := db.issues[row].(title := issue.title)];
    }
    assert db.issues == resolved.issues[row := UpdatedFields(issueDb, issue)];
    ValidAfterRowUpdate(resolved, row, UpdatedFields(issueDb, issue));
  }

  /**
   * The GitHub issue handler. `json.loads` of the body is given as
   * `payload` (its `issue` object), None when the body is no JSON.
   */
  method WebhookGithubIssue(db: Database, body: seq<byte>, secret: string, signatureHeader: Option<string>,
                            payload: Option<IssuePayload>, hmacHex: (string, seq<byte>) -> HexDigest)
    returns (resp: Response)
    requires db.Valid()
    modifies db
    ensures db.Valid()
    ensures Handled(db.Snapshot(), resp) == GithubIssueOutcome(old(db.Snapshot()), body, secret, signatureHeader, payload, hmacHex)
  {
    var check := VerifySignature(body, secret, signatureHeader, hmacHex);
    if check.Fail? {
      return Error(check.error);
    }
    if payload.None? {
      return Error(BadJson);
    }
    var issue := payload.value;
    if IsEligibleForBounty(issue) {
      ApplyIssueEvent(db, issue);
      return Message(IssueReceivedMessage(issue.number));
    }
    return Message(NonEligibleMessage);
  }

  /** The GitHub issue route: the gate dependency runs first, then the handler. */
  method GithubIssueRoute(db: Database, ipsOnly: bool, host: string, ipv6Parser: string -> Option<U128>,
                          hooks: seq<Network>, body: seq<byte>, secret: string, signatureHeader: Option<string>,
                          payload: Option<IssuePayload>, hmacHex: (string, seq<byte>) -> HexDigest)
    returns (resp: Response)
    requires db.Valid()
    modifies db
    ensures db.Valid()
    ensures var gate := GateOutcome(ipsOnly, host, ipv6Parser, hooks);
      gate.Fail? ==> resp == Error(gate.error) && unchanged(db)
    ensures GateOutcome(ipsOnly, host, ipv6Parser, hooks) == Pass ==>
      Handled(db.Snapshot(), resp) == GithubIssueOutcome(old(db.Snapshot()), body, secret, signatureHeader, payload, hmacHex)
  {
    var gate := GateByGithubIp(ipsOnly, host, ipv6Parser, hooks);
    if gate.Fail? {
      return Error(gate.error);
    }
    resp := WebhookGithubIssue(db, body, secret, signatureHeader, payload, hmacHex);
  }

  // --------------------------------------------------------------- scenario

  /**
   * A delivery for issue #1 "Bug" of repository "myrepo", labelled
   * "confirmed", whichever owner prefix its api url has and whatever its
   * page url is.
   */
  function Delivery(prefix: string, page: string, state: string): IssuePayload {
    IssuePayload(1, "Bug", state, [Label("confirmed")], prefix + "/" + "myrepo", page)
  }

  /** The tables holding repository 1 "myrepo" and its issue 1 "Bug". */
  function ScenarioTables(page: string, open: bool, bounty: int): Tables {
    Tables([NewRepository(1, "myrepo")], [Issue(1, 1, "Bug", open, bounty, 1, None, page)])
  }

  /** A completed checkout of 500 cents for "myrepo" #1. */
  const Payment := StripeEvent(CheckoutCompleted, CheckoutSession(CheckoutMetadata("myrepo", 1), 500))

  /** A label "confirmed" makes the issue eligible. */
  lemma DeliveryEligible(prefix: string, page: string, state: string)
    ensures IsEligibleForBounty(Delivery(prefix, page, state))
  {
    assert LabelNames(Delivery(prefix, page, state).labels) == ["confirmed"];
  }

  /** On an empty database get_issue creates repository 1 "myrepo" and, in it, issue 1. */
  lemma FirstDeliveryResolution(prefix: string, page: string)
    ensures ResolveIssue(Tables([], []), Delivery(prefix, page, "open")) ==
      IssueResolution(Tables([NewRepository(1, "myrepo")], [NewIssue(1, "Bug", 1, Some(1), page)]), 0)
  {
    RepoNameAfterLastSlash(prefix, "myrepo");
    assert ResolveRepository(Tables([], []), "myrepo") ==
      RepositoryResolution(Tables([NewRepository(1, "myrepo")], []), NewRepository(1, "myrepo"));
  }

  /**
   * On an empty database the first "open" delivery creates repository 1
   * "myrepo" and issue 1, created closed and then stored open, with no bounty.
   */
  lemma FirstDeliveryCreatesIssue(prefix: string, page: string)
    ensures ReconcileIssue(Tables([], []), Delivery(prefix, page, "open")) == ScenarioTables(page, true, 0)
  {
    var created := NewIssue(1, "Bug", 1, Some(1), page);
    FirstDeliveryResolution(prefix, page);
    ReconcileUnfold(Tables([], []), Delivery(prefix, page, "open"));
    assert [created][0 := created.(state := true, title := "Bug")] == ScenarioTables(page, true, 0).issues;
  }

  /** Once stored, the issue is found again: get_issue changes nothing. */
  lemma RedeliveryResolution(prefix: string, page: string)
    ensures ResolveIssue(ScenarioTables(page, true, 0), Delivery(prefix, page, "closed")) ==
      IssueResolution(ScenarioTables(page, true, 0), 0)
  {
    var t := ScenarioTables(page, true, 0);
    RepoNameAfterLastSlash(prefix, "myrepo");
    assert FirstRepositoryNamed(t.repositories, "myrepo") == Some(0);
    assert FirstIssueFor(t.issues, 1, 1) == Some(0);
    assert LookupIssue(t, "myrepo", 1) == Some(0);
  }

  /** A later "closed" delivery flips the issue's state and nothing else. */
  lemma RedeliveryFlipsState(prefix: string, page: string)
    ensures ReconcileIssue(ScenarioTables(page, true, 0), Delivery(prefix, page, "closed")) == ScenarioTables(page, false, 0)
  {
    RedeliveryResolution(prefix, page);
    ReconcileUnfold(ScenarioTables(page, true, 0), Delivery(prefix, page, "closed"));
    var stored := ScenarioTables(page, true, 0).issues[0];
    assert [stored][0 := stored.(state := false, title := "Bug")] == ScenarioTables(page, false, 0).issues;
  }

  /** A payment of 500 cents for the issue adds 5 to its bounty and is answered with `{}`. */
  lemma PaymentAddsBounty(page: string)
    ensures StripeCheckoutOutcome(ScenarioTables(page, false, 0), Some(Payment)) == Handled(ScenarioTables(page, false, 5), EmptyObject)
  {
    var t := ScenarioTables(page, false, 0);
    assert FirstRepositoryNamed(t.repositories, "myrepo") == Some(0);
    assert FirstIssueFor(t.issues, 1, 1) == Some(0);
    assert LookupIssue(t, "myrepo", 1) == Some(0);
    assert AddBounty(t, 0, 5).issues == ScenarioTables(page, false, 5).issues;
  }
}
