/** One POST to the vault gateway with its retries (secrets/common/gateway.go). */
module GatewayRetry {

  const STATUS_OK := 200
  const DEFAULT_ATTEMPTS: nat := 5

  /** What one attempt brings back: a body, a status (0 without one) and whether the transport
      failed. */
  datatype Answer = Answer(body: string, status: int, transportError: bool)

  /** Worth another attempt: the transport failed, or the gateway says that the request is not
      allowlisted yet. hint(body) says that the lower-cased body contains that phrase. */
  predicate Retryable(a: Answer, hint: string -> bool) {
    a.transportError || (a.status != STATUS_OK && hint(a.body))
  }

  predicate Succeeds(a: Answer) {
    !a.transportError && a.status == STATUS_OK
  }

  /** The gateway gave its last word: an answer that is no success and does not ask to wait. */
  predicate IsFinal(a: Answer, hint: string -> bool) {
    !a.transportError && a.status != 200 && !hint(a.body)
  }

  /** Every answer is exactly one of a success, worth a retry, or final. */
  lemma AnswersAreOneOfThree(a: Answer, hint: string -> bool)
    ensures Succeeds(a) || Retryable(a, hint) || IsFinal(a, hint)
    ensures !(Succeeds(a) && Retryable(a, hint)) && !(Succeeds(a) && IsFinal(a, hint))
    ensures !(Retryable(a, hint) && IsFinal(a, hint))
    ensures a.transportError ==> Retryable(a, hint)
  {
  }

  function Bound(configured: nat): (n: nat)
    ensures n > 0
  {
    if configured == 0 then DEFAULT_ATTEMPTS else configured
  }

  /** Sends at least one request and at most the bound, stops at the first answer that is not worth
      a retry, and reports the last answer. answers(k) is what the k-th attempt meets. */
  method Post(configured: nat, answers: nat -> Answer, hint: string -> bool)
    returns (body: string, status: int, ok: bool, sent: nat)
    ensures 1 <= sent <= Bound(configured)
    ensures forall k | 0 <= k < sent - 1 :: Retryable(answers(k), hint)
    ensures sent < Bound(configured) ==> !Retryable(answers(sent - 1), hint)
    ensures body == answers(sent - 1).body && status == answers(sent - 1).status
    ensures ok <==> Succeeds(answers(sent - 1))
    ensures ok ==> status == STATUS_OK
  {
    var attempts := configured;
    if attempts == 0 {
      attempts := DEFAULT_ATTEMPTS;
    }
    ok, sent := false, 0;
    body, status := "", 0;
    while sent < attempts
      invariant 0 <= sent <= attempts
      invariant forall k | 0 <= k < sent :: Retryable(answers(k), hint)
      invariant !ok
      invariant sent > 0 ==> body == answers(sent - 1).body && status == answers(sent - 1).status
    {
      var answer := answers(sent);
      sent := sent + 1;
      body, status := answer.body, answer.status;
      if answer.transportError {
        continue;
      }
      if answer.status != STATUS_OK {
        if hint(answer.body) {
          continue;
        }
        return;
      }
      ok := true;
      return;
    }
  }
}
