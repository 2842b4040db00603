# elementary-bounties: bounty ledger and webhook reconciliation

This project models the core of the elementary bounties service. The service keeps a
table of GitHub repositories and a table of their issues, with a cumulative bounty per issue.
Two webhooks feed it:

- **GitHub issue events** create an issue on first sight, get-or-creating its repository on the way. Later events bring the stored state and title up to date. Only issues labelled `confirmed` count.
- **Stripe `checkout.session.completed` events** add the payment, in whole currency units, to the bounty of the issue named in the payment's metadata.

Before any of that, a GitHub request must pass two checks:

- It must carry a valid `x-hub-signature-256` HMAC.
- When the allow-list is switched on, it must come from an address inside one of GitHub's published `hooks` networks.

The model is written in the source's own form:

- **Records.** The records of `app/db/models.py` are datatypes (module `Models`). A `Tables` snapshot carries the store invariants:
  - row ids are positions plus one;
  - every issue's `repository_id` names an existing repository;
  - optionally, every bounty is non-negative.
- **Pure CRUD logic.** The pure parts of the CRUD layer are functions, in modules `RepositoriesCrud` and `IssuesCrud`:
  - the repository-name parse, first-match lookups and label eligibility;
  - the state conversions, and get-or-create on a snapshot;
  - the bounty increment.
- **Database session.** The session is a class `Store.Database` with a `seq` field per table. Its methods are `GetRepositoryByIssue`, `GetIssue` and `BumpBountyIssue`. Each is proved equal to the matching function on the snapshot.
- **Handlers.** The handlers in module `Webhooks` are methods that take the database as a parameter and change it in place:
  - the Stripe checkout handler;
  - the GitHub issue handler and the route that puts the sender gate in front of it;
  - the gate's loop over `hooks`.

  Each handler is proved against a function that gives the response and the tables left behind (`StripeCheckoutOutcome`, `GithubIssueOutcome`). The gate changes nothing, so its loop is proved against `GateOutcome`, a function of the decision alone.
- **Library behaviour.** The Python built-ins the core leans on are modelled in modules `Strings` and `IpAddress`:
  - `str.split('/')[-1]`;
  - the f-string rendering of an `int`;
  - `ipaddress.ip_address` on dotted quads;
  - `address in ip_network(...)`.

Inputs the code receives from the outside world are parameters:

- **HMAC:** the hex digest of HMAC-SHA256 of RFC 2104 is `hmacHex`, any function returning 64 lower-case hexadecimal digits.
- **IPv6:** the parse of IPv6 text is `ipv6Parser`.
- **GitHub meta:** the `hooks` list of GitHub's meta document is a sequence of networks (version, base, prefix).
- **Decoded bodies:** the decoded JSON body is an `Option` of a payload datatype, None when decoding failed.

Behaviour of the code worth knowing:

- **Division rounds down.** The Stripe handler divides with Python's `//`, which rounds toward negative infinity, also for a negative `amount_total`. The model uses Dafny's `/`, which equals `//` for the divisor 100 (`WholeUnits`).
- **Bounties need not stay non-negative.** Nothing in the code keeps a bounty non-negative or non-decreasing. A negative amount is applied as given. Non-negativity is proved only under non-negative amounts.
- **Any `state` string is accepted.** The code accepts any string as a payload's `state`, not just "open" and "closed"; every other string is stored as closed. Replaying a payload therefore changes no value. It writes no title. It skips the state write exactly when the state string is "open" or "closed" (`Webhooks.ReconcileIdempotent`).
- **Repository names carry no unique constraint.** The schema does not forbid two repositories with one name, nor two issues with one repository id and number. Get-or-create still keeps both unique when deliveries are handled one at a time (`RepositoriesCrud.ResolveRepositoryKeepsNamesUnique`, `IssuesCrud.ResolveIssueKeepsKeysUnique`). Duplicates can come only from concurrent deliveries or from other writers. Every lookup then takes the first matching row (see "## Left out" on row order).
- **A missing issue crashes the Stripe handler.** When a completed checkout names an issue that does not exist, the ledger dereferences a missing row. The request then ends in a server error with nothing changed. The model returns that 500 explicitly. `Store.Database.BumpBountyIssue` keeps the existence of the row as its precondition, as the code demands of its callers.

## Model

| member | source | states |
|---|---|---|
| Models.NewRepository | app/db/models.py:20-27 | a repository created from a name is visible, has no description and has an issue count of 0 under the id it is given |
| Models.NewIssue | app/db/models.py:34-44 | a created issue has state false, bounty 0, no repository name, number 0 when none is given, and exactly the given id, title, repository id and url |
| Models.ForeignKeyResolves | app/db/models.py:42 | in valid tables every issue's repository id designates the repository stored at that id |
| Models.ValidAfterRowUpdate | app/db/models.py:36-42 | rewriting columns of an issue other than its id and repository id keeps the tables valid |
| Strings.Split | app/crud/repositories.py:33 | `str.split` yields at least one piece and no piece contains the separator |
| Strings.JoinSplit | app/crud/repositories.py:33 | joining the pieces of a split with the separator gives back the string |
| Strings.SplitWithoutSeparator | app/crud/repositories.py:33 | a string without the separator splits into itself alone |
| Strings.SplitWithSeparator | app/crud/repositories.py:33 | a string holding the separator splits into at least two pieces |
| Strings.LastPieceIsSuffix | app/crud/repositories.py:33 | the last piece of a split has no separator, ends the string, and is the whole string or follows a separator |
| Strings.NatToDecimal | app/routers/webhooks.py:172 | the decimal rendering of a natural number is canonical (no leading zero except for 0 itself) |
| Strings.DecimalValue | app/routers/webhooks.py:96 | `int(s, 10)` of a string of k ASCII digits is a natural number below 10^k |
| Strings.IntToDecimal | app/routers/webhooks.py:172 | `str(i)` of a non-negative integer is its canonical decimal numeral; of a negative one, a minus sign followed by the canonical numeral of its magnitude, which does not start with 0 |
| Strings.DecimalOfNatToDecimal | app/routers/webhooks.py:172 | reading back the decimal rendering of a number gives the number |
| Strings.NatToDecimalOfCanonical | app/routers/webhooks.py:172 | rendering the value of a canonical digit string gives back the string |
| RepositoriesCrud.RepoNameFromUrl | app/crud/repositories.py:33 | the parsed name contains no '/', is a suffix of the url, and is the whole url or follows its last '/' |
| RepositoriesCrud.RepoNameAfterLastSlash | app/crud/repositories.py:33 | for any prefix, `prefix + "/" + name` with a slash-free name parses to that name |
| RepositoriesCrud.RepoNameWithoutSlash | app/crud/repositories.py:33 | a url without '/' is its own repository name |
| RepositoriesCrud.FirstRepositoryNamed | app/crud/repositories.py:17-20 | the result is the first row with the name, every earlier row has another name, and None means no row has it |
| RepositoriesCrud.ResolveRepository | app/crud/repositories.py:22-41 | an existing repository with the name is returned with the tables unchanged; otherwise exactly one new repository with the name is appended under the next id; afterwards the name resolves to the returned row and the tables stay valid |
| RepositoriesCrud.ResolveRepositoryIdempotent | app/crud/repositories.py:34-41 | resolving the same name a second time adds nothing and returns the same repository |
| RepositoriesCrud.ResolveRepositoryOnlyAppends | app/crud/repositories.py:34-41 | get-or-create adds at most one repository and leaves every existing one as it was |
| RepositoriesCrud.ResolveRepositoryKeepsNamesUnique | app/crud/repositories.py:34-41 | when no two repositories share a name, none do after get-or-create |
| RepositoriesCrud.UniqueNameFound | app/crud/repositories.py:17-20 | with unique names, the first-match lookup of a row's name finds that row |
| IssuesCrud.LabelNames | app/crud/issues.py:54 | the names are the labels' names, one per label and in order |
| IssuesCrud.AnyWhitelisted | app/crud/issues.py:56 | true exactly when some name is on the label allow-list |
| IssuesCrud.IsEligibleForBounty | app/crud/issues.py:49-56 | an issue is eligible iff some label is named "confirmed"; no labels means not eligible |
| IssuesCrud.IssueStateToStr | app/crud/issues.py:75-79 | true renders as "open", false as "closed" |
| IssuesCrud.IssueStateToBool | app/crud/issues.py:82-86 | a state string maps to true iff it is "open"; every other string, "closed" included, maps to false |
| IssuesCrud.StateRoundTrip | app/crud/issues.py:75-86 | converting a stored state to its string and back gives the stored state |
| IssuesCrud.StateStringRoundTrip | app/crud/issues.py:75-86 | a state string survives the trip to bool and back iff it is "open" or "closed"; the bool is true iff the string is "open" |
| IssuesCrud.FirstIssueFor | app/crud/issues.py:23-28 | the result is the first issue of that repository id with that number, and None means there is none |
| IssuesCrud.FirstIssueForSameKeys | app/crud/issues.py:23-28 | the lookup depends only on repository ids and numbers, so title and state writes do not move it |
| IssuesCrud.ResolveIssue | app/crud/issues.py:31-46 | resolves the repository first; an existing issue with the key is returned with the issue table unchanged; otherwise exactly one issue with the payload's title, number and html url under the resolved repository id is appended; the tables stay valid and the key then finds the returned row |
| IssuesCrud.ResolveIssueOnlyAppends | app/crud/issues.py:31-46 | get_issue adds at most one row to each table and leaves every existing row as it was |
| IssuesCrud.NewRepositoryMeansNewIssue | app/crud/issues.py:32-42 | when the repository had to be created, the issue is created as well |
| IssuesCrud.ResolveIssueIdempotent | app/crud/issues.py:31-46 | a second get_issue with the same payload adds no row and returns the same row |
| IssuesCrud.ResolveIssueKeepsKeysUnique | app/crud/issues.py:31-46 | when repository names are unique and no two issues share a repository id and number, both stay so after get_issue |
| IssuesCrud.SameKeysKeepUnique | app/crud/issues.py:23-28 | writes that leave repository ids and numbers alone keep issue keys unique |
| IssuesCrud.UniqueKeyFound | app/crud/issues.py:23-28 | with unique keys, the first-match lookup of a row's repository id and number finds that row |
| IssuesCrud.LookupIssue | app/crud/issues.py:61-69 | the row the ledger updates has the number and the id of the first repository with the name, is the first such issue, and exists exactly when both lookups succeed |
| IssuesCrud.AddBounty | app/crud/issues.py:71 | the row's bounty grows by exactly the amount, no other field or row changes, validity is kept, and non-negative amounts keep every bounty non-negative |
| IssuesCrud.LookupIssueSameKeys | app/crud/issues.py:61-69 | the ledger's lookup depends only on repository rows and issue keys |
| IssuesCrud.LookupIssueStable | app/crud/issues.py:59-72 | a bump does not change which row a repository name and number designate |
| IssuesCrud.BumpTwice | app/crud/issues.py:59-72 | bumping by a and then by b leaves the same tables as one bump by a + b |
| Store.Database.constructor | app/db/models.py:20-44 | a new database holds two empty tables and is valid |
| Store.Database.CheckRepositoryExists | app/crud/repositories.py:6-20 | returns the first repository row with the name, or None when no row has it |
| Store.Database.GetRepositoryByName | app/crud/repositories.py:43-48 | the same read-only first match as check_repository_exists |
| Store.Database.GetRepositoryByIssue | app/crud/repositories.py:22-41 | the new tables and the result are those of ResolveRepository; the issue table is untouched; an existing repository leaves the database unchanged; afterwards the name is found |
| Store.Database.CheckIssueExists | app/crud/issues.py:12-28 | returns an issue row with the repository's id and the payload's number before which no row has both, or None exactly when no row has both |
| Store.Database.GetIssue | app/crud/issues.py:31-46 | the new tables and the returned row are those of ResolveIssue; an existing issue leaves the database unchanged, a missing one is appended with the payload's title, number and html url under the resolved repository's id; afterwards the lookup finds the row |
| Store.Database.BumpBountyIssue | app/crud/issues.py:59-72 | the database becomes AddBounty of the looked-up row: the repositories and every other row are unchanged, and non-negative amounts keep bounties non-negative |
| IpAddress.ParseOctet | app/routers/webhooks.py:96 | an accepted octet is 1 to 3 canonical decimal digits with value at most 255 |
| IpAddress.ParseIPv4 | app/routers/webhooks.py:96 | a parsed dotted quad is below 2^32 |
| IpAddress.ParseFormatIPv4 | app/routers/webhooks.py:96 | every 32-bit address formatted as a dotted quad parses back to itself |
| IpAddress.FormatParseIPv4 | app/routers/webhooks.py:96 | every text accepted as a dotted quad is the formatting of its value |
| IpAddress.FormatOfBytes | app/routers/webhooks.py:96 | four bytes make an address below 2^32 whose dotted quad writes those bytes |
| IpAddress.ParseOfBytes | app/routers/webhooks.py:96 | four bytes written as a dotted quad parse back to the address they make |
| IpAddress.ParseAddress | app/routers/webhooks.py:96 | a dotted quad is read as IPv4 before any IPv6 reading; text IPv4 rejects and the IPv6 parser accepts is that IPv6 address; text neither reading accepts is no address |
| IpAddress.ValidNetwork | app/routers/webhooks.py:105 | a network `ip_network` accepts has a prefix within its version's width, and its block of 2^(max - prefix) addresses lies inside the version's address space |
| IpAddress.Contains | app/routers/webhooks.py:105 | an address is in a network iff the network is well formed, the versions agree and the address lies in [base, base + 2^(max - prefix)); a contained address is within its version's address space |
| IpAddress.GitHubDottedQuad | app/routers/webhooks.py:96 | "192.30.252.0" is the address 3223256064 |
| IpAddress.ForeignDottedQuad | app/routers/webhooks.py:96 | "8.8.8.8" is the address 134744072 |
| IpAddress.HookNetworkExamples | app/routers/webhooks.py:105 | 192.30.252.0/22 holds 192.30.252.0 and not 8.8.8.8 |
| IpAddress.UndottedTextIsNoIPv4 | app/routers/webhooks.py:96 | text without a dot is no IPv4 address |
| Webhooks.StripeCheckoutOutcome | app/routers/webhooks.py:51-72 | an undecodable body is a 400 and any other event type an empty answer, both without change; a completed checkout bumps the designated issue by `amount_total // 100` and answers `{}`, or is a 500 without change when the issue does not exist; non-negative amounts keep bounties non-negative |
| Webhooks.WholeUnits | app/routers/webhooks.py:69 | the increment is the largest whole number of hundreds not above the amount |
| Webhooks.WebhookStripePostCheckout | app/routers/webhooks.py:31-72 | response and new database are those of StripeCheckoutOutcome; any event but a completed checkout leaves the database untouched |
| Webhooks.HookScan | app/routers/webhooks.py:104-111 | the scan's answer is a pass, a 403 or a 500 |
| Webhooks.HookScanPasses | app/routers/webhooks.py:104-107 | the scan passes iff some network holds the address and every network before it is well formed |
| Webhooks.HookScanForbids | app/routers/webhooks.py:104-111 | the scan answers 403 iff every network is well formed and none holds the address |
| Webhooks.HookScanRaises | app/routers/webhooks.py:104-105 | the scan fails with a server error iff a malformed network comes before any network holding the address |
| Webhooks.GateOutcome | app/routers/webhooks.py:91-111 | with the allow-list off every sender passes; an unparsable host is a 400 before any network is looked at; otherwise the scan decides |
| Webhooks.GatePassesExactlyHookAddresses | app/routers/webhooks.py:104-111 | with well-formed hooks the gate passes an address iff some hook network holds it, and answers 403 otherwise |
| Webhooks.GateAdmitsHookAddress | app/routers/webhooks.py:94-107 | 192.30.252.0 passes the gate with hooks [192.30.252.0/22] |
| Webhooks.GateRefusesForeignAddress | app/routers/webhooks.py:94-111 | 8.8.8.8 is refused with 403 by hooks [192.30.252.0/22] |
| Webhooks.GateRejectsInvalidHost | app/routers/webhooks.py:95-101 | a host with neither a dot nor a colon, such as "invalid-ip", is refused with 400 whatever the hooks, for any IPv6 parser that rejects text without a colon |
| Webhooks.GateByGithubIp | app/routers/webhooks.py:76-111 | the loop's answer is GateOutcome: the allow-list off passes, an unparsable host is a 400, then the first malformed or containing network decides and none is a 403 |
| Webhooks.ExpectedSignature | app/routers/webhooks.py:129-132 | the expected header is 71 ASCII characters |
| Webhooks.VerifySignature | app/routers/webhooks.py:114-135 | passes iff the header equals "sha256=" + the hex digest; an absent or empty header is the 403 "header is missing!"; a non-ASCII header makes the comparison raise (500); any other header is the 403 "signatures didn't match!" |
| Webhooks.UpdatedFields | app/routers/webhooks.py:166-171 | writing state and title only where they differ leaves the row with exactly the payload's mapped state and its title, and every other field as it was |
| Webhooks.ReconcileIssue | app/routers/webhooks.py:165-171 | after get_issue the resolved row holds the payload's mapped state and its title, every other field and row is as get_issue left it, the tables stay valid, and non-negative bounties stay non-negative |
| Webhooks.ReconcileUnfold | app/routers/webhooks.py:165-171 | the reconciled tables are get_issue's tables with the resolved row given the payload's state and title |
| Webhooks.NewIssueStateWrite | app/routers/webhooks.py:165-168 | an issue not yet stored is created closed, so its state is written iff the payload's state is not "closed"; it ends with state open iff the payload says "open", and with bounty 0 |
| Webhooks.ResolveAfterReconcile | app/routers/webhooks.py:165-171 | after reconciling, get_issue with the same payload finds the same row and adds nothing |
| Webhooks.ReconcileIdempotent | app/routers/webhooks.py:165-171 | replaying a reconciled payload changes nothing, writes no title, and writes the state iff the state string is neither "open" nor "closed" |
| Webhooks.IssueReceivedMessage | app/routers/webhooks.py:172 | the acknowledgement is "An event for issue #", then `str(number)`, then " received." |
| Webhooks.GithubIssueOutcome | app/routers/webhooks.py:153-173 | a failed signature check answers its error without change; a body that is no JSON answers "Bad JSON."; a non-eligible issue gets the non-eligible message without change; an eligible one is reconciled and acknowledged by number; no table changes without a valid signature |
| Webhooks.ApplyIssueEvent | app/routers/webhooks.py:165-171 | the database becomes ReconcileIssue of the old tables |
| Webhooks.WebhookGithubIssue | app/routers/webhooks.py:138-173 | response and new database are those of GithubIssueOutcome |
| Webhooks.GithubIssueRoute | app/routers/webhooks.py:76-173 | a gate refusal is answered without touching the database; a pass runs the handler as GithubIssueOutcome states |
| Webhooks.DeliveryEligible | app/crud/issues.py:49-56 | a payload labelled "confirmed" is eligible |
| Webhooks.FirstDeliveryResolution | app/crud/issues.py:31-46 | on an empty database get_issue for issue #1 of any url ending in "/myrepo" creates repository 1 "myrepo" and the default issue 1 in it |
| Webhooks.FirstDeliveryCreatesIssue | app/routers/webhooks.py:164-171 | on an empty database the first "open" delivery leaves repository 1 "myrepo" and issue 1 "Bug", open with bounty 0 |
| Webhooks.RedeliveryResolution | app/crud/issues.py:31-46 | once stored, the issue is found again and get_issue changes nothing |
| Webhooks.RedeliveryFlipsState | app/routers/webhooks.py:165-171 | a later "closed" delivery changes only that issue's state |
| Webhooks.PaymentAddsBounty | app/routers/webhooks.py:61-72 | a completed checkout of 500 for "myrepo" #1 adds 5 to its bounty and answers `{}` |

## Left out

- HMAC-SHA256 is a parameter (`hmacHex`). Its construction and the constant-time comparison of `hmac.compare_digest` are not modelled, because timing is not a property the model can state.
- The request to `https://api.github.com/meta` is a network call. Its `hooks` list is a parameter, and a failing request or a malformed meta document is not modelled.
- IPv6 text syntax is left to the `ipv6Parser` parameter; no IPv6 literal is modelled.
- CIDR text is not parsed. The hooks are given as version, base and prefix, and malformed entries are those with host bits set or an oversized prefix. Text that is no network at all is therefore not modelled. Nor are the netmask forms `ip_network` also accepts.
- JSON decoding and `stripe.Event.construct_from` are not modelled. Each handler receives the decoded payload, or None for a body that does not decode. A payload missing a field (a `KeyError`) is not modelled.
- In the GitHub handler, `json.loads` detects UTF-8, UTF-16 or UTF-32 from the body's first bytes. A body it cannot decode in that encoding makes it raise `UnicodeDecodeError` (app/routers/webhooks.py:158), which `except json.decoder.JSONDecodeError` (line 159) does not catch, so the answer is a 500. Valid JSON that is not an object makes `payload["issue"]` raise `TypeError` (app/routers/webhooks.py:162). Both end in a 500. Neither is modelled, because the handler is given the payload already decoded.
- In the Stripe metadata, the repository name and issue number are taken as a string and an integer. In real Stripe events metadata values are strings, so the comparison with the integer `number` column is not modelled.
- The `x-github-event` header is only logged. A request that lacks it is refused by the framework with a 422 before the handler runs, which is not modelled.
- Sessions, `commit` and concurrency are not modelled. Commits are no-ops on the in-memory tables, each handler runs atomically, and the lost update between two concurrent Stripe deliveries is not captured.
- `issues_count` and `repository_name` are stored columns that the core never updates. They keep their defaults.
- The Stripe handler's parse-error answer is a urllib3 `HTTPResponse` object rather than a framework response. FastAPI does not send such an object with status 400. The model gives the 400 the code intends, not the answer the framework actually sends, which is not modelled.
- Integers are unbounded. The ids and the `number` and `cumulative_bounty` columns are `sa.Integer` (app/db/models.py:36-37, 40), a bounded database integer. A bump, a number or an id past that range fails in the database, which is not modelled.
- `.first()` on a SELECT without ORDER BY returns whatever row the database yields first. The model abstracts this as the first row in insertion order. With unique names and keys (kept by get-or-create, see above) there is only one matching row, so the choice does not matter.
- Logging and `print` are not modelled.
- The user accounts and their authentication (app/utils.py), posts, the index and repository routers, the application setup, the seeder and updater scripts, the database migrations and the pydantic schemas are not part of this model: none of them touches the bounty ledger or the webhook decisions.
