/** The session state machine: handshake, capability exchange, and the nonces of the encrypted tunnel. */
module Session {
  import opened Common
  import opened Endian
  import opened SessionCodec

  type Key = Bytes

  datatype State = Init | WaitResponse | WaitCapability | Established | Closed

  datatype SessionError = InvalidState | InvalidPayloadSize | DecryptionFailed
                        | SerializationError | CryptoEngineNotReady

  /** What the session calls out to: its ephemeral key pair, the AEAD of section 2.8 of RFC 8439, text repair. */
  datatype Env = Env(
    publicKey: Bytes,
    derive: Bytes -> Key,
    seal: (Key, Bytes, Bytes) -> Option<Bytes>,
    open: (Key, Bytes, Bytes) -> Option<Bytes>,
    lossy: Bytes -> Bytes)

  datatype Session = Session(
    state: State, engine: Option<Key>, remoteNode: Option<Bytes>,
    local: Option<Negotiation>, remote: Option<Negotiation>, tx: nat, rx: nat)

  const NEW := Session(Init, None, None, None, None, 0, 0)

  /** A counter value as the 12-byte nonce. */
  function NonceBytes(n: nat): Bytes { LeBytes(n, 8) + [0, 0, 0, 0] }

  /** A 64-bit counter's wrap-around. */
  function Next64(n: nat): nat { if n + 1 == U64 then 0 else n + 1 }

  function InitStep(env: Env, s: Session): (Session, Packet) {
    (s.(state := WaitResponse), Packet(HandshakeInit, env.publicKey))
  }

  function ResponseStep(env: Env, s: Session, payload: Bytes): (Session, Result<(), SessionError>) {
    if s.state != WaitResponse then (s, Err(InvalidState))
    else if |payload| < 32 then (s, Err(InvalidPayloadSize))
    else (s.(engine := Some(env.derive(payload[..32])), tx := 0, rx := 0, state := WaitCapability), Ok(()))
  }

  function DefaultNegotiation(node: Bytes, time: nat): Negotiation {
    Negotiation([Offer(BRANE_CONNECT, 0x80, 1), Offer(IPC_SEND, 0x20, 0), Offer(IPC_RECV, 0x40, 0)], [], node, time)
  }

  // "BRANE_CONNECT", "IPC_SEND", "IPC_RECV"
  const BRANE_CONNECT: Bytes := [66, 82, 65, 78, 69, 95, 67, 79, 78, 78, 69, 67, 84]
  const IPC_SEND: Bytes := [73, 80, 67, 95, 83, 69, 78, 68]
  const IPC_RECV: Bytes := [73, 80, 67, 95, 82, 69, 67, 86]

  function OfferStep(s: Session, node: Bytes, time: nat): (Session, Result<Packet, SessionError>) {
    if s.state != WaitCapability then (s, Err(InvalidState))
    else
      var n := DefaultNegotiation(node, time);
      (s.(local := Some(n)), Ok(Packet(CapabilityExchange, EncodeNegotiation(n))))
  }

  function ExchangeStep(env: Env, s: Session, payload: Bytes): (Session, Result<(), SessionError>) {
    if s.state != WaitCapability then (s, Err(InvalidState))
    else
      match ParseNegotiation(payload, env.lossy)
      case None => (s, Err(SerializationError))
      case Some(n) => (s.(remoteNode := Some(n.node), remote := Some(n), state := Established), Ok(()))
  }

  /** The nonce is spent before the engine is consulted, whatever the engine then says. */
  function EncryptStep(env: Env, s: Session, data: Bytes): (Session, Result<Packet, SessionError>) {
    if s.state != Established then (s, Err(InvalidState))
    else
      var s' := s.(tx := Next64(s.tx));
      if s.engine == None then (s', Err(CryptoEngineNotReady))
      else
        match env.seal(s.engine.value, NonceBytes(s.tx), data)
        case None => (s', Err(DecryptionFailed))
        case Some(c) => (s', Ok(Packet(EncryptedData, c)))
  }

  function DecryptStep(env: Env, s: Session, data: Bytes): (Session, Result<Bytes, SessionError>) {
    if s.state != Established then (s, Err(InvalidState))
    else
      var s' := s.(rx := Next64(s.rx));
      if s.engine == None then (s', Err(CryptoEngineNotReady))
      else
        match env.open(s.engine.value, NonceBytes(s.rx), data)
        case None => (s', Err(DecryptionFailed))
        case Some(p) => (s', Ok(p))
  }

  // ---------------------------------------------------------------------
  // Every run of a session
  // ---------------------------------------------------------------------

  datatype Op = SendInit | GetResponse(payload: Bytes) | SendOffer(node: Bytes, time: nat) | GetExchange(payload: Bytes)
              | Encrypt(data: Bytes) | Decrypt(data: Bytes) | Close

  function Step(env: Env, s: Session, op: Op): Session {
    match op
    case SendInit => InitStep(env, s).0
    case GetResponse(p) => ResponseStep(env, s, p).0
    case SendOffer(node, time) => OfferStep(s, node, time).0
    case GetExchange(p) => ExchangeStep(env, s, p).0
    case Encrypt(d) => EncryptStep(env, s, d).0
    case Decrypt(d) => DecryptStep(env, s, d).0
    case Close => s.(state := Closed)
  }

  // ---------------------------------------------------------------------
  // Keys and nonces
  // ---------------------------------------------------------------------

  /** An installed key and the messages handed to it for sealing before the next one was installed. */
  datatype Epoch = Epoch(key: Key, messages: seq<Bytes>)

  /** A key with the 12-byte nonce of one seal. */
  type Use = (Key, Bytes)

  /** The uses of a 64-bit counter that starts at zero. */
  function Counter(k: Key, n: nat): (uses: seq<Use>)
    ensures |uses| == n && forall i :: 0 <= i < n ==> uses[i] == (k, NonceBytes(i % U64))
  {
    if n == 0 then [] else Counter(k, n - 1) + [(k, NonceBytes((n - 1) % U64))]
  }

  /** Every installation counts from zero again. */
  function EpochLog(es: seq<Epoch>): seq<Use> {
    if es == [] then [] else EpochLog(es[..|es| - 1]) + Counter(es[|es| - 1].key, |es[|es| - 1].messages|)
  }

  /** A session with its installations, the uses of its seals in order, and the opens under the current key. */
  datatype Trace = Trace(s: Session, epochs: seq<Epoch>, log: seq<Use>, opens: nat)

  function TraceStep(env: Env, t: Trace, op: Op): Trace {
    var s := Step(env, t.s, op);
    match op
    case GetResponse(payload) =>
      if ResponseStep(env, t.s, payload).1.Ok?
      then Trace(s, t.epochs + [Epoch(env.derive(payload[..32]), [])], t.log, 0)
      else t.(s := s)
    case Encrypt(data) =>
      if t.s.state == Established && t.s.engine.Some? && t.epochs != []
      then t.(s := s, epochs := OneMore(t.epochs, data), log := t.log + [(t.s.engine.value, NonceBytes(t.s.tx))])
      else t.(s := s)
    case Decrypt(_) => t.(s := s, opens := if t.s.state == Established then t.opens + 1 else t.opens)
    case _ => t.(s := s)
  }

  /** The current installation has sealed one more message. */
  function OneMore(es: seq<Epoch>, data: Bytes): seq<Epoch>
    requires es != []
  {
    es[|es| - 1 := es[|es| - 1].(messages := es[|es| - 1].messages + [data])]
  }

  function Run(env: Env, ops: seq<Op>): Trace {
    if ops == [] then Trace(NEW, [], [], 0) else TraceStep(env, Run(env, ops[..|ops| - 1]), ops[|ops| - 1])
  }

  /** Past the handshake there is an engine, with the last installed key; the counters are those of its uses;
      and the uses made are the installations' counters one after another. */
  predicate Inv(t: Trace) {
    && (t.s.state == WaitCapability || t.s.state == Established ==> t.s.engine.Some?)
    && (t.s.state == Established ==> t.s.remote.Some?)
    && t.s.remoteNode == (if t.s.remote.Some? then Some(t.s.remote.value.node) else None)
    && t.s.engine == (if t.epochs == [] then None else Some(t.epochs[|t.epochs| - 1].key))
    && t.s.tx == (if t.epochs == [] then 0 else |t.epochs[|t.epochs| - 1].messages| % U64)
    && t.s.rx == t.opens % U64
    && t.log == EpochLog(t.epochs)
  }

  lemma NextIsModulo(n: nat)
    ensures (n + 1) % U64 == Next64(n % U64)
  {
  }

  lemma OneMoreLogged(es: seq<Epoch>, data: Bytes)
    requires es != []
    ensures var e := es[|es| - 1];
            EpochLog(OneMore(es, data)) == EpochLog(es) + [(e.key, NonceBytes(|e.messages| % U64))]
  {
    hide NonceBytes;
    assert OneMore(es, data)[..|es| - 1] == es[..|es| - 1];
  }

  lemma StepKeepsInv(env: Env, t: Trace, op: Op)
    requires Inv(t)
    ensures Inv(TraceStep(env, t, op))
  {
    hide Next64, NonceBytes, ParseNegotiation, EncodeNegotiation, DefaultNegotiation, EpochLog;
    NextIsModulo(t.opens);
    if t.epochs != [] {
      NextIsModulo(|t.epochs[|t.epochs| - 1].messages|);
      if op.Encrypt? { OneMoreLogged(t.epochs, op.data); }
    }
    if op.GetResponse? && ResponseStep(env, t.s, op.payload).1.Ok? {
      NewEpochLogged(t.epochs, env.derive(op.payload[..32]));
    }
  }

  lemma NewEpochLogged(es: seq<Epoch>, k: Key)
    ensures EpochLog(es + [Epoch(k, [])]) == EpochLog(es)
  {
    assert (es + [Epoch(k, [])])[..|es|] == es;
  }

  lemma {:induction false} RunKeepsInv(env: Env, ops: seq<Op>)
    ensures Inv(Run(env, ops))
  {
    if ops != [] {
      hide Inv;
      RunKeepsInv(env, ops[..|ops| - 1]);
      StepKeepsInv(env, Run(env, ops[..|ops| - 1]), ops[|ops| - 1]);
    }
  }

  /** In every reachable state past the handshake the engine is there, so no operation ever reports it missing. */
  lemma EngineIsPresent(env: Env, ops: seq<Op>, data: Bytes)
    ensures var s := Run(env, ops).s;
            && (s.state == WaitCapability || s.state == Established ==> s.engine.Some?)
            && EncryptStep(env, s, data).1 != Err(CryptoEngineNotReady)
            && DecryptStep(env, s, data).1 != Err(CryptoEngineNotReady)
  {
    RunKeepsInv(env, ops);
  }

  lemma NonceInjective(i: nat, j: nat)
    requires i < U64 && j < U64
    ensures NonceBytes(i) == NonceBytes(j) ==> i == j
  {
    hide LeBytes, LeValue, Pow256;
    Widths();
    LeRoundTrip(i, 8);
    LeRoundTrip(j, 8);
    assert LeBytes(i, 8) == NonceBytes(i)[..8] && LeBytes(j, 8) == NonceBytes(j)[..8];
  }

  /** One installation never repeats a nonce within 2^64 seals, and does at the next. */
  lemma CounterIsFreshIff(k: Key, n: nat)
    ensures Distinct(Counter(k, n)) <==> n <= U64
  {
    hide NonceBytes;
    var uses := Counter(k, n);
    if n > U64 {
      assert uses[0] == uses[U64];
    } else {
      forall i, j | 0 <= i < j < n ensures uses[i] != uses[j] { NonceInjective(i, j); }
    }
  }

  /** Installations that sealed something all had different keys. */
  predicate Apart(es: seq<Epoch>) {
    forall i, j :: 0 <= i < j < |es| && es[i].messages != [] && es[j].messages != [] ==> es[i].key != es[j].key
  }

  predicate Short(es: seq<Epoch>) {
    forall i :: 0 <= i < |es| ==> |es[i].messages| <= U64
  }

  lemma {:induction false} KeysOfLog(es: seq<Epoch>, k: Key, n: Bytes)
    ensures (k, n) in EpochLog(es) ==> exists i :: 0 <= i < |es| && es[i].key == k && es[i].messages != []
  {
    if es != [] { KeysOfLog(es[..|es| - 1], k, n); }
  }

  /** Every installation that sealed used nonce zero. */
  lemma {:induction false} FirstUseLogged(es: seq<Epoch>, i: nat)
    requires i < |es| && es[i].messages != []
    ensures (es[i].key, NonceBytes(0)) in EpochLog(es)
  {
    hide NonceBytes;
    var last := es[|es| - 1];
    if i == |es| - 1 {
      assert Counter(last.key, |last.messages|)[0] == (last.key, NonceBytes(0));
    } else {
      FirstUseLogged(es[..|es| - 1], i);
    }
  }

  lemma DistinctConcat<T>(a: seq<T>, b: seq<T>)
    ensures Distinct(a + b) <==> Distinct(a) && Distinct(b) && forall x :: x in a ==> x !in b
  {
    var ab := a + b;
    if Distinct(ab) {
      assert forall i :: 0 <= i < |a| ==> ab[i] == a[i];
      forall i, j | 0 <= i < j < |b| ensures b[i] != b[j] { assert ab[|a| + i] == b[i] && ab[|a| + j] == b[j]; }
      forall x | x in a ensures x !in b {
        var i :| 0 <= i < |a| && a[i] == x;
        forall j | 0 <= j < |b| ensures b[j] != x { assert ab[i] != ab[|a| + j]; }
      }
    }
    if Distinct(a) && Distinct(b) && forall x :: x in a ==> x !in b {
      forall i, j | 0 <= i < j < |ab| ensures ab[i] != ab[j] {
        if i < |a| <= j { assert a[i] !in b && ab[j] == b[j - |a|]; }
      }
    }
  }

  /** No key and nonce are used twice if and only if no two installations that sealed share a key and none sealed
      more than 2^64 times. */
  lemma {:induction false} LogIsFreshIff(es: seq<Epoch>)
    ensures Distinct(EpochLog(es)) <==> Apart(es) && Short(es)
  {
    hide NonceBytes;
    if es != [] {
      var front, last := es[..|es| - 1], es[|es| - 1];
      LogIsFreshIff(front);
      CounterIsFreshIff(last.key, |last.messages|);
      DistinctConcat(EpochLog(front), Counter(last.key, |last.messages|));
      OverlapIff(front, last);
      assert es == front + [last];
    }
  }

  lemma OverlapIff(front: seq<Epoch>, last: Epoch)
    ensures (forall x :: x in EpochLog(front) ==> x !in Counter(last.key, |last.messages|))
       <==> forall i :: 0 <= i < |front| && front[i].messages != [] && last.messages != [] ==> front[i].key != last.key
  {
    hide NonceBytes;
    var uses := Counter(last.key, |last.messages|);
    forall i | 0 <= i < |front| && front[i].messages != [] && last.messages != [] && front[i].key == last.key
      ensures (last.key, NonceBytes(0)) in EpochLog(front) && (last.key, NonceBytes(0)) in uses
    {
      FirstUseLogged(front, i);
      assert uses[0] == (last.key, NonceBytes(0));
    }
    forall x | x in EpochLog(front) && x in uses
      ensures exists i :: 0 <= i < |front| && front[i].messages != [] && last.messages != [] && front[i].key == last.key
    {
      KeysOfLog(front, x.0, x.1);
    }
  }

  lemma {:induction false} LogsConcat(a: seq<Epoch>, b: seq<Epoch>)
    ensures EpochLog(a + b) == EpochLog(a) + EpochLog(b)
    decreases |b|
  {
    hide Counter, NonceBytes;
    if b == [] {
      assert a + b == a;
    } else {
      LogsConcat(a, b[..|b| - 1]);
      var last := b[|b| - 1];
      assert (a + b)[..|a + b| - 1] == a + b[..|b| - 1] && (a + b)[|a + b| - 1] == last;
      var uses := Counter(last.key, |last.messages|);
      assert EpochLog(a) + (EpochLog(b[..|b| - 1]) + uses) == (EpochLog(a) + EpochLog(b[..|b| - 1])) + uses;
    }
  }

  /** For any runs of the two ends: no key and nonce seal two messages if and only if, over both ends together,
      no two installations that sealed share a key and none sealed more than 2^64 times. */
  lemma SealsAreFreshIff(envA: Env, opsA: seq<Op>, envB: Env, opsB: seq<Op>)
    ensures var a, b := Run(envA, opsA), Run(envB, opsB);
            Distinct(a.log + b.log) <==> Apart(a.epochs + b.epochs) && Short(a.epochs + b.epochs)
  {
    hide Run;
    RunKeepsInv(envA, opsA);
    RunKeepsInv(envB, opsB);
    var a, b := Run(envA, opsA), Run(envB, opsB);
    LogsConcat(a.epochs, b.epochs);
    LogIsFreshIff(a.epochs + b.epochs);
  }

  /** A whole handshake with the capability exchange. */
  function Handshake(response: Bytes, exchange: Bytes): seq<Op> {
    [SendInit, GetResponse(response), GetExchange(exchange)]
  }

  /** From any state it installs the key the response gives, and both counters start at zero. */
  lemma HandshakeInstalls(env: Env, ops: seq<Op>, response: Bytes, exchange: Bytes)
    requires |response| >= 32 && ParseNegotiation(exchange, env.lossy).Some?
    ensures var t, t' := Run(env, ops), Run(env, ops + Handshake(response, exchange));
            var k := env.derive(response[..32]);
            && t'.epochs == t.epochs + [Epoch(k, [])] && t'.log == t.log && t'.opens == 0
            && t'.s.state == Established && t'.s.engine == Some(k) && t'.s.tx == 0 && t'.s.rx == 0
  {
    hide NonceBytes, ParseNegotiation;
    var h := Handshake(response, exchange);
    assert (ops + h)[..|ops| + 2] == ops + h[..2];
    assert (ops + h[..2])[..|ops| + 1] == ops + h[..1];
    assert (ops + h[..1])[..|ops|] == ops;
    var t := Run(env, ops);
    var t1 := Run(env, ops + h[..1]);
    assert t1 == TraceStep(env, t, SendInit);
    var t2 := Run(env, ops + h[..2]);
    assert t2 == TraceStep(env, t1, h[1]);
  }

  lemma RunSnoc(env: Env, ops: seq<Op>, op: Op)
    ensures Run(env, ops + [op]) == TraceStep(env, Run(env, ops), op)
  {
    assert (ops + [op])[..|ops|] == ops;
  }

  /** A handshake and one message. */
  function Talk(response: Bytes, exchange: Bytes, data: Bytes): seq<Op> {
    Handshake(response, exchange) + [Encrypt(data)]
  }

  /** From any state such a talk uses the key the response gives with nonce zero. */
  lemma TalkLogged(env: Env, ops: seq<Op>, response: Bytes, exchange: Bytes, data: Bytes)
    requires |response| >= 32 && ParseNegotiation(exchange, env.lossy).Some?
    ensures var t, t' := Run(env, ops), Run(env, ops + Talk(response, exchange, data));
            var k := env.derive(response[..32]);
            t'.epochs == t.epochs + [Epoch(k, [data])] && t'.log == t.log + [(k, NonceBytes(0))]
  {
    hide Run, NonceBytes, ParseNegotiation;
    HandshakeInstalls(env, ops, response, exchange);
    var before, es := ops + Handshake(response, exchange), Run(env, ops).epochs;
    assert ops + Talk(response, exchange, data) == before + [Encrypt(data)];
    RunSnoc(env, before, Encrypt(data));
    assert [] + [data] == [data];
    var key := env.derive(response[..32]);
    assert OneMore(es + [Epoch(key, [])], data) == es + [Epoch(key, [data])];
  }

  /** Shaking hands again with the same answer uses the same key with nonce zero a second time. */
  lemma SecondHandshakeRepeats(env: Env, response: Bytes, exchange: Bytes, first: Bytes, second: Bytes)
    requires |response| >= 32 && ParseNegotiation(exchange, env.lossy).Some?
    ensures var t := Run(env, Talk(response, exchange, first) + Talk(response, exchange, second));
            |t.log| == 2 && t.log[0] == t.log[1]
  {
    hide Run, NonceBytes, ParseNegotiation;
    TalkLogged(env, [], response, exchange, first);
    TalkLogged(env, Talk(response, exchange, first), response, exchange, second);
    assert [] + Talk(response, exchange, first) == Talk(response, exchange, first);
    assert Run(env, []) == Trace(NEW, [], [], 0) by { RunNothing(env); }
  }

  lemma RunNothing(env: Env)
    ensures Run(env, []) == Trace(NEW, [], [], 0)
  {
  }

  /** Two ends that agreed on a key and each sent one message have used it with nonce zero twice. */
  lemma BothEndsRepeat(envA: Env, envB: Env, toA: Bytes, toB: Bytes, exchange: Bytes, fromA: Bytes, fromB: Bytes)
    requires |toA| >= 32 && |toB| >= 32 && envA.derive(toA[..32]) == envB.derive(toB[..32])
    requires ParseNegotiation(exchange, envA.lossy).Some? && ParseNegotiation(exchange, envB.lossy).Some?
    ensures var a, b := Run(envA, Talk(toA, exchange, fromA)), Run(envB, Talk(toB, exchange, fromB));
            |a.log| == |b.log| == 1 && a.log == b.log
  {
    hide Run, NonceBytes, ParseNegotiation;
    TalkLogged(envA, [], toA, exchange, fromA);
    TalkLogged(envB, [], toB, exchange, fromB);
    RunNothing(envA);
    RunNothing(envB);
    assert [] + Talk(toA, exchange, fromA) == Talk(toA, exchange, fromA);
    assert [] + Talk(toB, exchange, fromB) == Talk(toB, exchange, fromB);
  }

  /** The offer one side builds takes the other from waiting to established, with that offer as its view of the peer. */
  lemma ExchangeEstablishes(env: Env, a: Session, b: Session, node: Bytes, time: nat)
    requires a.state == WaitCapability && b.state == WaitCapability && |node| == 16 && time < U64
    requires env.lossy(BRANE_CONNECT) == BRANE_CONNECT
    requires env.lossy(IPC_SEND) == IPC_SEND && env.lossy(IPC_RECV) == IPC_RECV
    ensures var (a', sent) := OfferStep(a, node, time);
            sent.Ok? && var (b', r) := ExchangeStep(env, b, sent.value.payload);
            r.Ok? && b'.state == Established && b'.remote == a'.local && b'.remoteNode == Some(node)
  {
    var n := DefaultNegotiation(node, time);
    assert forall i :: 0 <= i < 3 ==> Plain(n.offered[i].name, env.lossy);
    NegotiationRoundTrip(n, env.lossy);
  }

  // ---------------------------------------------------------------------
  // The session object
  // ---------------------------------------------------------------------

  /** What sealing `data` as the `n`-th message of an installation with key `k` gives. */
  function Sealed(env: Env, k: Key, n: nat, data: Bytes): Result<Packet, SessionError> {
    match env.seal(k, NonceBytes(n % U64), data)
    case None => Err(DecryptionFailed)
    case Some(c) => Ok(Packet(EncryptedData, c))
  }

  /** What opening `data` as the `n`-th payload of an installation with key `k` gives. */
  function Opened(env: Env, k: Key, n: nat, data: Bytes): Result<Bytes, SessionError> {
    match env.open(k, NonceBytes(n % U64), data)
    case None => Err(DecryptionFailed)
    case Some(p) => Ok(p)
  }

  class BraneSession {
    const env: Env
    var state: State
    var engine: Option<Key>
    var remoteNode: Option<Bytes>
    var local: Option<Negotiation>
    var remote: Option<Negotiation>
    var tx: nat
    var rx: nat
    /** The run so far: installations, the key and nonce of every seal, and the opens. */
    ghost var trace: Trace

    ghost predicate Valid()
      reads this
    {
      trace.s == Session(state, engine, remoteNode, local, remote, tx, rx) && Inv(trace)
    }

    constructor (env: Env)
      ensures Valid() && trace == Run(env, []) && this.env == env
    {
      this.env := env;
      state, engine, remoteNode, local, remote, tx, rx := Init, None, None, None, None, 0, 0;
      trace := Trace(NEW, [], [], 0);
    }

    method BuildHandshakeInit() returns (p: Packet)
      requires Valid()
      modifies this
      ensures Valid() && trace == TraceStep(env, old(trace), SendInit)
      ensures p == Packet(HandshakeInit, env.publicKey)
    {
      StepKeepsInv(env, trace, SendInit);
      hide Inv, EncodeNegotiation, ParseNegotiation, EpochLog;
      state := WaitResponse;
      p := Packet(HandshakeInit, env.publicKey);
      trace := TraceStep(env, trace, SendInit);
    }

    /** A response of at least 32 bytes to an outstanding handshake, and nothing else, installs its key. */
    method ProcessHandshakeResponse(payload: Bytes) returns (r: Result<(), SessionError>)
      requires Valid()
      modifies this
      ensures Valid() && trace == TraceStep(env, old(trace), GetResponse(payload))
      ensures r.Ok? <==> old(state) == WaitResponse && |payload| >= 32
      ensures trace.epochs == if r.Ok? then old(trace.epochs) + [Epoch(env.derive(payload[..32]), [])]
                              else old(trace.epochs)
    {
      StepKeepsInv(env, trace, GetResponse(payload));
      hide Inv, EncodeNegotiation, ParseNegotiation, EpochLog;
      ghost var next := TraceStep(env, trace, GetResponse(payload));
      if state != WaitResponse { return Err(InvalidState); }
      if |payload| < 32 { return Err(InvalidPayloadSize); }
      engine := Some(env.derive(payload[..32]));
      tx := 0;
      rx := 0;
      state := WaitCapability;
      trace := next;
      r := Ok(());
    }

    method BuildCapabilityExchange(node: Bytes, time: nat) returns (r: Result<Packet, SessionError>)
      requires Valid()
      modifies this
      ensures Valid() && trace == TraceStep(env, old(trace), SendOffer(node, time))
      ensures r == OfferStep(old(trace.s), node, time).1
    {
      StepKeepsInv(env, trace, SendOffer(node, time));
      hide Inv, EncodeNegotiation, ParseNegotiation, EpochLog;
      if state != WaitCapability { return Err(InvalidState); }
      ghost var next := TraceStep(env, trace, SendOffer(node, time));
      var n := Negotiation([], [], node, time);
      n := n.(offered := n.offered + [Offer(BRANE_CONNECT, 0x80, 1)]);
      n := n.(offered := n.offered + [Offer(IPC_SEND, 0x20, 0)]);
      n := n.(offered := n.offered + [Offer(IPC_RECV, 0x40, 0)]);
      local := Some(n);
      var payload := NegotiationToBytes(n);
      assert n == DefaultNegotiation(node, time);
      trace := next;
      r := Ok(Packet(CapabilityExchange, payload));
    }

    method ProcessCapabilityExchange(payload: Bytes) returns (r: Result<(), SessionError>)
      requires Valid()
      modifies this
      ensures Valid() && trace == TraceStep(env, old(trace), GetExchange(payload))
      ensures r == ExchangeStep(env, old(trace.s), payload).1
    {
      StepKeepsInv(env, trace, GetExchange(payload));
      hide Inv, EncodeNegotiation, ParseNegotiation, EpochLog;
      ghost var next := TraceStep(env, trace, GetExchange(payload));
      if state != WaitCapability { return Err(InvalidState); }
      var n := NegotiationFromBytes(payload, env.lossy);
      if n == None { return Err(SerializationError); }
      remoteNode := Some(n.value.node);
      remote := Some(n.value);
      state := Established;
      trace := next;
      r := Ok(());
    }

    /** The counter's little-endian bytes, copied into a zeroed 12-byte nonce; the counter moves on. */
    method GetTxNonce() returns (nonce: array<Byte>)
      requires tx < U64
      modifies `tx
      ensures fresh(nonce) && nonce[..] == NonceBytes(old(tx)) && tx == Next64(old(tx))
    {
      nonce := FormatNonce(tx);
      tx := Next64(tx);
    }

    method GetRxNonce() returns (nonce: array<Byte>)
      requires rx < U64
      modifies `rx
      ensures fresh(nonce) && nonce[..] == NonceBytes(old(rx)) && rx == Next64(old(rx))
    {
      nonce := FormatNonce(rx);
      rx := Next64(rx);
    }

    /** In an established session the message is sealed under the last installed key with its own number among that
        key's seals as nonce; that number is used up even when sealing fails, and the engine is never missing. */
    method EncryptPayload(data: Bytes) returns (r: Result<Packet, SessionError>)
      requires Valid()
      modifies this
      ensures Valid() && trace == TraceStep(env, old(trace), Encrypt(data))
      ensures if old(state) != Established then r == Err(InvalidState) && trace == old(trace)
              else old(trace.epochs) != [] && trace.epochs == OneMore(old(trace.epochs), data)
                   && var e := old(trace.epochs)[|old(trace.epochs)| - 1]; r == Sealed(env, e.key, |e.messages|, data)
    {
      StepKeepsInv(env, trace, Encrypt(data));
      if state != Established { return Err(InvalidState); }
      hide NonceBytes, EpochLog, ParseNegotiation, EncodeNegotiation;
      var nonce := GetTxNonce();
      trace := TraceStep(env, trace, Encrypt(data));
      assert engine != None;
      var c := env.seal(engine.value, nonce[..], data);
      if c == None { return Err(DecryptionFailed); }
      r := Ok(Packet(EncryptedData, c.value));
    }

    /** Likewise for opening: the payload's number since the key was installed is its nonce, used up either way. */
    method DecryptPayload(data: Bytes) returns (r: Result<Bytes, SessionError>)
      requires Valid()
      modifies this
      ensures Valid() && trace == TraceStep(env, old(trace), Decrypt(data))
      ensures if old(state) != Established then r == Err(InvalidState) && trace == old(trace)
              else old(trace.epochs) != [] && trace.opens == old(trace.opens) + 1
                   && var e := old(trace.epochs)[|old(trace.epochs)| - 1];
                      r == Opened(env, e.key, old(trace.opens), data)
    {
      StepKeepsInv(env, trace, Decrypt(data));
      if state != Established { return Err(InvalidState); }
      hide NonceBytes, EpochLog, ParseNegotiation, EncodeNegotiation;
      var nonce := GetRxNonce();
      trace := TraceStep(env, trace, Decrypt(data));
      assert engine != None;
      var p := env.open(engine.value, nonce[..], data);
      if p == None { return Err(DecryptionFailed); }
      r := Ok(p.value);
    }

    method CloseSession() returns (p: Packet)
      requires Valid()
      modifies this
      ensures Valid() && trace == TraceStep(env, old(trace), Close) && p == Packet(Disconnect, [])
    {
      StepKeepsInv(env, trace, Close);
      hide Inv, EncodeNegotiation, ParseNegotiation, EpochLog;
      state := Closed;
      p := Packet(Disconnect, []);
      trace := TraceStep(env, trace, Close);
    }
  }

  method FormatNonce(counter: nat) returns (nonce: array<Byte>)
    ensures fresh(nonce) && nonce[..] == NonceBytes(counter)
  {
    hide LeBytes;
    nonce := new Byte[12](_ => 0);
    var i: nat, rest: nat := 0, counter;
    while i < 8
      modifies nonce
      invariant i <= 8 && nonce.Length == 12
      invariant nonce[..i] + LeBytes(rest, 8 - i) == LeBytes(counter, 8)
      invariant nonce[8..] == [0, 0, 0, 0]
    {
      ghost var before := nonce[..i];
      FirstByte(rest, 8 - i);
      nonce[i] := (rest % 256) as Byte;
      rest := rest / 256;
      assert nonce[..i + 1] == before + [nonce[i]];
      assert before + ([nonce[i]] + LeBytes(rest, 7 - i)) == nonce[..i + 1] + LeBytes(rest, 7 - i);
      i := i + 1;
    }
    assert nonce[..] == nonce[..8] + nonce[8..];
  }

  lemma FirstByte(n: nat, k: nat)
    requires k > 0
    ensures LeBytes(n, k) == [(n % 256) as Byte] + LeBytes(n / 256, k - 1)
  {
  }
}
