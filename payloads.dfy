/**
 * The parts of the decoded webhook bodies that the core reads: the `issue`
 * object of a GitHub issue event, and a Stripe event with the checkout
 * session it carries.
 */
module Payloads {

  /** One entry of `issue["labels"]`; only `name` is read. */
  datatype Label = Label(name: string)

  /** `payload["issue"]` of a GitHub issue event, the keys the core reads. */
  datatype IssuePayload = IssuePayload(
    number: int,
    title: string,
    state: string,
    labels: seq<Label>,
    repositoryUrl: string,
    htmlUrl: string)

  /** `event.data.object["metadata"]` of a checkout session. */
  datatype CheckoutMetadata = CheckoutMetadata(repositoryName: string, issueNumber: int)

  /** `event.data.object`: the metadata and the total in minor currency units. */
  datatype CheckoutSession = CheckoutSession(metadata: CheckoutMetadata, amountTotal: int)

  /** A Stripe event: its `type` and its data object. */
  datatype StripeEvent = StripeEvent(eventType: string, session: CheckoutSession)
}
