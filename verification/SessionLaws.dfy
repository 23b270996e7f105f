/** What the state of a session says about the operations that led to it, and the other way round. */
module SessionLaws {
  import opened Common
  import opened SessionCodec
  import opened Session

  /** Whatever came before, the session starts over or ends. */
  predicate Restarts(op: Op) { op.SendInit? || op.Close? }

  predicate Answers(op: Op) { op.GetResponse? && |op.payload| >= 32 }

  predicate Agrees(env: Env, op: Op) { op.GetExchange? && ParseNegotiation(op.payload, env.lossy).Some? }

  predicate NoRestart(ops: seq<Op>, from: nat) {
    forall j :: from <= j < |ops| ==> !Restarts(ops[j])
  }

  predicate NoAnswer(ops: seq<Op>, from: nat, to: nat) {
    forall j :: from <= j < to <= |ops| ==> !Answers(ops[j])
  }

  predicate NoAgreement(env: Env, ops: seq<Op>, from: nat, to: nat) {
    forall j :: from <= j < to <= |ops| ==> !Agrees(env, ops[j])
  }

  /** Operation `i` began the handshake that is still in force. */
  predicate Begun(ops: seq<Op>, i: nat) {
    i < |ops| && ops[i].SendInit? && NoRestart(ops, i + 1)
  }

  /** Operation `a` is the first long enough answer to it. */
  predicate Answered(ops: seq<Op>, i: nat, a: nat) {
    Begun(ops, i) && i < a < |ops| && Answers(ops[a]) && NoAnswer(ops, i + 1, a)
  }

  /** How far a run has come, with the operations that brought it there. */
  datatype Progress = Fresh
                    | Ended(close: nat)
                    | Asked(init: nat)
                    | Keyed(init: nat, answer: nat)
                    | Agreed(init: nat, answer: nat, exchange: nat)

  predicate Shows(env: Env, ops: seq<Op>, p: Progress) {
    match p
    case Fresh => NoRestart(ops, 0)
    case Ended(c) => c < |ops| && ops[c].Close? && NoRestart(ops, c + 1)
    case Asked(i) => Begun(ops, i) && NoAnswer(ops, i + 1, |ops|)
    case Keyed(i, a) => Answered(ops, i, a) && NoAgreement(env, ops, a + 1, |ops|)
    case Agreed(i, a, x) =>
      Answered(ops, i, a) && a < x < |ops| && Agrees(env, ops[x]) && NoAgreement(env, ops, a + 1, x)
  }

  function StateOf(p: Progress): State {
    match p
    case Fresh => Init
    case Ended(_) => Closed
    case Asked(_) => WaitResponse
    case Keyed(_, _) => WaitCapability
    case Agreed(_, _, _) => Established
  }

  /** The state, the key, and the peer's negotiation are the ones that the progress names. */
  predicate Matches(env: Env, ops: seq<Op>, p: Progress, s: Session)
    requires Shows(env, ops, p)
  {
    && s.state == StateOf(p)
    && (p.Keyed? || p.Agreed? ==> s.engine == Some(env.derive(ops[p.answer].payload[..32])))
    && (p.Agreed? ==> s.remote == ParseNegotiation(ops[p.exchange].payload, env.lossy))
  }

  /** What one more operation makes of the progress. */
  function Advanced(env: Env, p: Progress, n: nat, op: Op): Progress {
    if op.SendInit? then Asked(n)
    else if op.Close? then Ended(n)
    else if p.Asked? && Answers(op) then Keyed(p.init, n)
    else if p.Keyed? && Agrees(env, op) then Agreed(p.init, p.answer, n)
    else p
  }

  lemma StepAdvances(env: Env, ops: seq<Op>, op: Op, p: Progress)
    requires Shows(env, ops, p)
    ensures Shows(env, ops + [op], Advanced(env, p, |ops|, op))
  {
    hide ParseNegotiation;
  }

  lemma StepMatches(env: Env, ops: seq<Op>, op: Op, p: Progress, s: Session)
    requires Shows(env, ops, p) && Matches(env, ops, p, s)
    requires Shows(env, ops + [op], Advanced(env, p, |ops|, op))
    ensures Matches(env, ops + [op], Advanced(env, p, |ops|, op), Step(env, s, op))
  {
    hide ParseNegotiation, EncodeNegotiation, DefaultNegotiation, NonceBytes;
  }

  lemma {:induction false} RunShows(env: Env, ops: seq<Op>) returns (p: Progress)
    ensures Shows(env, ops, p) && Matches(env, ops, p, Run(env, ops).s)
  {
    if ops == [] {
      p := Fresh;
    } else {
      var front, op := ops[..|ops| - 1], ops[|ops| - 1];
      var q := RunShows(env, front);
      hide Shows, Matches, Advanced, Step;
      StepAdvances(env, front, op, q);
      StepMatches(env, front, op, q, Run(env, front).s);
      p := Advanced(env, q, |front|, op);
      assert front + [op] == ops;
    }
  }

  lemma OneProgress(env: Env, ops: seq<Op>, p: Progress, q: Progress)
    requires Shows(env, ops, p) && Shows(env, ops, q)
    ensures p == q
  {
    hide ParseNegotiation;
  }

  /** After any run the session is in the state that its operations name, and in no other: established exactly when
      the last handshake begun was answered and then agreed on, under the key of the first long enough answer and
      with the first negotiation that parses. */
  lemma StateIff(env: Env, ops: seq<Op>, p: Progress)
    requires Shows(env, ops, p)
    ensures Matches(env, ops, p, Run(env, ops).s)
  {
    hide Shows, Matches, Run;
    var q := RunShows(env, ops);
    OneProgress(env, ops, p, q);
  }

  /** A session is established exactly when the last handshake begun was answered and, after the answer, a negotiation
      that parses came in. */
  lemma EstablishedIff(env: Env, ops: seq<Op>)
    ensures Run(env, ops).s.state == Established
       <==> exists i: nat, a: nat, x: nat :: Answered(ops, i, a) && a < x < |ops| && Agrees(env, ops[x])
  {
    hide Run, ParseNegotiation;
    var p := RunShows(env, ops);
    if p.Agreed? { assert Answered(ops, p.init, p.answer) && Agrees(env, ops[p.exchange]); }
  }
}
