/** goproxy's request-handler chain as the gateway uses it: handlers are
    registered in order with `OnRequest(conditions).DoFunc(handler)`; each
    one either answers or declines (returns a nil response), the first answer
    is sent back and no later handler runs, and a request nobody answers is
    forwarded to the upstream application (the rewrite of its target and
    the relay itself are not modelled). */
module Proxy {
  import opened Http

  /** A registered handler: `Some(response)` answers, `None` declines. */
  type Rule = Request -> Option<Response>

  /** What happens to a request once the chain has run. */
  datatype Outcome = Respond(response: Response) | Forward

  /** `OnRequest(cond).DoFunc(handler)`: the handler only runs when the
      condition holds; otherwise the rule declines. */
  function When(cond: Request -> bool, handler: Rule): (rule: Rule)
    ensures forall r :: !cond(r) ==> rule(r) == None
    ensures forall r :: cond(r) ==> rule(r) == handler(r)
  {
    r => if cond(r) then handler(r) else None
  }

  /** Runs the rules in registration order and stops at the first answer. */
  function Dispatch(rules: seq<Rule>, r: Request): Outcome
    decreases |rules|
  {
    if |rules| == 0 then Forward
    else
      match rules[0](r)
      case Some(resp) => Respond(resp)
      case None => Dispatch(rules[1..], r)
  }

  /** A request is forwarded exactly when every rule declines it. */
  lemma {:induction false} DispatchForwardIff(rules: seq<Rule>, r: Request)
    ensures Dispatch(rules, r) == Forward <==> forall i :: 0 <= i < |rules| ==> rules[i](r) == None
    decreases |rules|
  {
    if |rules| > 0 {
      DispatchForwardIff(rules[1..], r);
      assert forall i :: 1 <= i < |rules| ==> rules[i] == rules[1..][i - 1];
    }
  }

  /** First match wins: when rule `k` answers and every earlier rule
      declines, the answer of rule `k` is the outcome. */
  lemma {:induction false} DispatchFirstMatch(rules: seq<Rule>, r: Request, k: nat)
    requires k < |rules| && rules[k](r).Some?
    requires forall j :: 0 <= j < k ==> rules[j](r) == None
    ensures Dispatch(rules, r) == Respond(rules[k](r).value)
    decreases k
  {
    if k > 0 {
      assert rules[0](r) == None;
      assert forall j :: 0 <= j < k - 1 ==> rules[1..][j] == rules[j + 1];
      DispatchFirstMatch(rules[1..], r, k - 1);
    }
  }

  /** Every answer comes from some rule that all earlier rules left alone. */
  lemma {:induction false} DispatchAnswerHasSource(rules: seq<Rule>, r: Request)
    requires Dispatch(rules, r).Respond?
    ensures exists k :: (0 <= k < |rules| && rules[k](r) == Some(Dispatch(rules, r).response) &&
                         forall j :: 0 <= j < k ==> rules[j](r) == None)
    decreases |rules|
  {
    if rules[0](r).None? {
      DispatchAnswerHasSource(rules[1..], r);
      var k :| 0 <= k < |rules[1..]| && rules[1..][k](r) == Some(Dispatch(rules[1..], r).response) &&
        forall j :: 0 <= j < k ==> rules[1..][j](r) == None;
      assert rules[k + 1] == rules[1..][k];
      assert forall j :: 1 <= j < k + 1 ==> rules[j] == rules[1..][j - 1];
    } else {
      assert rules[0](r) == Some(Dispatch(rules, r).response);
    }
  }

  /** Rules registered after an answering prefix are never consulted; a
      prefix that declines hands the request on to the rules after it. */
  lemma {:induction false} DispatchConcat(first: seq<Rule>, rest: seq<Rule>, r: Request)
    ensures Dispatch(first + rest, r) ==
      if Dispatch(first, r).Respond? then Dispatch(first, r) else Dispatch(rest, r)
    decreases |first|
  {
    if |first| == 0 {
      assert first + rest == rest;
    } else {
      assert (first + rest)[0] == first[0];
      assert (first + rest)[1..] == first[1..] + rest;
      DispatchConcat(first[1..], rest, r);
    }
  }
}
