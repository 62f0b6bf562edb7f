/** The shape every create handler shares: a fixed, ordered list of guards,
    each of which either lets the request through or answers with a status
    and a message; the first guard that fails answers, and only a request
    that passes them all reaches the store. */
module Guards {
  import opened Js

  /** One guard: whether the request passes it, and what is answered if not. */
  datatype Check = Check(passes: bool, status: nat, message: string)

  /** The `{message, data}` envelope with its HTTP status. */
  datatype Reply<T> = Reply(status: nat, message: string, data: Option<T>)

  /** The answer of a failed guard. */
  function Refuse<T>(c: Check): Reply<T> {
    Reply(c.status, c.message, None)
  }

  /** The position of the first guard that fails, or `|checks|` when all pass. */
  function FirstFailing(checks: seq<Check>): (k: nat)
    ensures k <= |checks|
    ensures forall j | 0 <= j < k :: checks[j].passes
    ensures k < |checks| ==> !checks[k].passes
  {
    if checks == [] then 0
    else if !checks[0].passes then 0
    else 1 + FirstFailing(checks[1..])
  }

  /** Guard `k` answers exactly when it fails and every earlier guard passes. */
  lemma {:induction false} FirstFailingAt(checks: seq<Check>, k: nat)
    requires k <= |checks|
    requires forall j | 0 <= j < k :: checks[j].passes
    requires k < |checks| ==> !checks[k].passes
    ensures FirstFailing(checks) == k
  {
    if checks != [] && k > 0 {
      assert checks[0].passes;
      FirstFailingAt(checks[1..], k - 1);
    }
  }
}
