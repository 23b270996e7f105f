/** The encrypted tunnel over an ideal AEAD (section 2.8 of RFC 8439): what a receiver accepts over any channel. */
module Tunnel {
  import opened Common
  import opened Endian
  import opened SessionCodec
  import opened Session

  /** The sender's ciphertexts for its messages, when every seal succeeds. */
  function SendAll(env: Env, s: Session, msgs: seq<Bytes>): (Session, seq<Result<Packet, SessionError>>) {
    if msgs == [] then (s, [])
    else
      var (s', sent) := SendAll(env, s, msgs[..|msgs| - 1]);
      var (s'', r) := EncryptStep(env, s', msgs[|msgs| - 1]);
      (s'', sent + [r])
  }

  function ReceiveAll(env: Env, s: Session, payloads: seq<Bytes>): (Session, seq<Result<Bytes, SessionError>>) {
    if payloads == [] then (s, [])
    else
      var (s', got) := ReceiveAll(env, s, payloads[..|payloads| - 1]);
      var (s'', r) := DecryptStep(env, s', payloads[|payloads| - 1]);
      (s'', got + [r])
  }

  /** Established under key `k`, with nothing sealed yet. */
  predicate ReadyToSend(s: Session, k: Key) {
    s.state == Established && s.engine == Some(k) && s.tx == 0
  }

  /** Established under key `k`, with nothing opened yet, whatever it has sent. */
  predicate ReadyToReceive(s: Session, k: Key) {
    s.state == Established && s.engine == Some(k) && s.rx == 0
  }

  /** The `i`-th message is sealed with the `i`-th value of the 64-bit counter. */
  lemma {:induction false} SendsInOrder(env: Env, s: Session, k: Key, msgs: seq<Bytes>)
    requires ReadyToSend(s, k)
    ensures var (s', sent) := SendAll(env, s, msgs);
            && s' == s.(tx := |msgs| % U64) && |sent| == |msgs|
            && forall i :: 0 <= i < |msgs| ==> sent[i] == Sealed(env, k, i, msgs[i])
  {
    hide NonceBytes, Next64;
    if msgs != [] {
      SendsInOrder(env, s, k, msgs[..|msgs| - 1]);
      NextIsModulo(|msgs| - 1);
    }
  }

  lemma {:induction false} OpensInOrder(env: Env, s: Session, k: Key, payloads: seq<Bytes>)
    requires ReadyToReceive(s, k)
    ensures var (s', got) := ReceiveAll(env, s, payloads);
            && s' == s.(rx := |payloads| % U64) && |got| == |payloads|
            && forall i :: 0 <= i < |payloads| ==> got[i] == Opened(env, k, i, payloads[i])
  {
    hide NonceBytes, Next64;
    if payloads != [] {
      OpensInOrder(env, s, k, payloads[..|payloads| - 1]);
      NextIsModulo(|payloads| - 1);
    }
  }

  /** An ideal AEAD under key `k`: opening under a nonce yields a message exactly for the ciphertext that sealing
      that message under that nonce gives, and no ciphertext serves two nonces. */
  ghost predicate Ideal(env: Env, k: Key) {
    && (forall n, c, p :: env.open(k, n, c) == Some(p) <==> env.seal(k, n, p) == Some(c))
    && (forall n, m, p, q :: env.seal(k, n, p).Some? && env.seal(k, n, p) == env.seal(k, m, q) ==> n == m)
  }

  /** Such an AEAD exists: the nonce followed by the message. */
  lemma IdealExists(env: Env, k: Key)
    ensures Ideal(env.(seal := (_, n, p) => if |n| == 12 then Some(n + p) else None,
                       open := (_, n, c) => if |n| == 12 && n <= c then Some(c[12..]) else None), k)
  {
    forall n: Bytes, p: Bytes | |n| == 12 ensures n <= n + p && (n + p)[12..] == p && (n + p)[..12] == n { }
    forall n: Bytes, c: Bytes | |n| == 12 && n <= c ensures n + c[12..] == c { }
  }

  /** Two places of the 64-bit counter with the same value. */
  predicate SamePlace(i: nat, j: nat) { i % U64 == j % U64 }

  /** A ciphertext opens exactly when it is processed in the place it was sent in. */
  lemma OpensIffInPlace(env: Env, k: Key, sentAt: nat, gotAt: nat, msg: Bytes, c: Bytes)
    requires Ideal(env, k) && env.seal(k, NonceBytes(sentAt % U64), msg) == Some(c)
    ensures env.open(k, NonceBytes(gotAt % U64), c) == (if SamePlace(sentAt, gotAt) then Some(msg) else None)
  {
    hide NonceBytes;
    var r := env.open(k, NonceBytes(gotAt % U64), c);
    if SamePlace(sentAt, gotAt) {
      assert r == Some(msg);
    } else if r.Some? {
      assert env.seal(k, NonceBytes(gotAt % U64), r.value) == Some(c);
      NonceInjective(sentAt % U64, gotAt % U64);
    }
  }

  /** The payload that arrives `i`-th is the packet sent `j`-th. */
  predicate IsPacket(sent: seq<Result<Packet, SessionError>>, j: nat, payload: Bytes) {
    j < |sent| && sent[j].Ok? && sent[j].value.payload == payload
  }

  /** Whatever else arrives, the `j`-th packet sent is accepted if and only if it is processed in its own place, and
      then it yields the `j`-th message. */
  lemma DeliveredIffInPlace(
    env: Env, k: Key, a: Session, b: Session, msgs: seq<Bytes>, arrived: seq<Bytes>, i: nat, j: nat)
    requires Ideal(env, k) && ReadyToSend(a, k) && ReadyToReceive(b, k)
    requires i < |arrived| && j < |msgs| && IsPacket(SendAll(env, a, msgs).1, j, arrived[i])
    ensures |ReceiveAll(env, b, arrived).1| == |arrived|
    ensures ReceiveAll(env, b, arrived).1[i] == if SamePlace(i, j) then Ok(msgs[j]) else Err(DecryptionFailed)
  {
    hide NonceBytes, Ideal, SendAll, ReceiveAll;
    SendsInOrder(env, a, k, msgs);
    OpensInOrder(env, b, k, arrived);
    OpensIffInPlace(env, k, j, i, msgs[j], arrived[i]);
  }

  /** Over a channel that delivers the packets in order, the receiver's plaintexts are the beginning of the sender's. */
  lemma FifoDelivers(env: Env, k: Key, a: Session, b: Session, msgs: seq<Bytes>, arrived: seq<Bytes>)
    requires Ideal(env, k) && ReadyToSend(a, k) && ReadyToReceive(b, k) && |arrived| <= |msgs|
    requires forall i :: 0 <= i < |arrived| ==> IsPacket(SendAll(env, a, msgs).1, i, arrived[i])
    ensures var got := ReceiveAll(env, b, arrived).1;
            |got| == |arrived| && forall i :: 0 <= i < |arrived| ==> got[i] == Ok(msgs[i])
  {
    hide Ideal, SendAll, ReceiveAll, IsPacket;
    OpensInOrder(env, b, k, arrived);
    forall i | 0 <= i < |arrived| ensures ReceiveAll(env, b, arrived).1[i] == Ok(msgs[i]) {
      DeliveredIffInPlace(env, k, a, b, msgs, arrived, i, i);
    }
  }

  // ---------------------------------------------------------------------
  // Any channel, any number of installations
  // ---------------------------------------------------------------------

  /** `c` is what installation `e` sent as its message `j`. */
  predicate IsCiphertext(env: Env, e: Epoch, j: nat, c: Bytes) {
    j < |e.messages| && env.seal(e.key, NonceBytes(j % U64), e.messages[j]) == Some(c)
  }

  /** `c` is a packet of some installation of key `k`, sent in a place with the counter value of `i`. */
  ghost predicate SentInPlace(env: Env, k: Key, all: seq<Epoch>, i: nat, c: Bytes) {
    exists e: nat, j: nat {:trigger IsCiphertext(env, all[e], j, c)} ::
      e < |all| && all[e].key == k && SamePlace(i, j) && IsCiphertext(env, all[e], j, c)
  }

  /** `all` are the installations of the key, on either end and from any handshake: nobody else can make something
      that opens under it. */
  ghost predicate NobodyElseSeals(env: Env, k: Key, all: seq<Epoch>, arrived: seq<Bytes>) {
    forall i, n :: 0 <= i < |arrived| && env.open(k, n, arrived[i]).Some? ==>
      exists e: nat, j: nat {:trigger IsCiphertext(env, all[e], j, arrived[i])} ::
        e < |all| && all[e].key == k && IsCiphertext(env, all[e], j, arrived[i])
  }

  /** Over any channel, the payload in place `i` is accepted exactly when it is a packet that some installation of the
      key sent in that place, and it yields that packet's message. */
  lemma AcceptedIffInPlace(env: Env, k: Key, b: Session, all: seq<Epoch>, arrived: seq<Bytes>, i: nat)
    requires Ideal(env, k) && NobodyElseSeals(env, k, all, arrived) && ReadyToReceive(b, k) && i < |arrived|
    ensures |ReceiveAll(env, b, arrived).1| == |arrived|
    ensures var r := ReceiveAll(env, b, arrived).1[i];
            && (r.Ok? <==> SentInPlace(env, k, all, i, arrived[i]))
            && forall e: nat, j: nat {:trigger IsCiphertext(env, all[e], j, arrived[i])} ::
                 e < |all| && all[e].key == k && SamePlace(i, j) && IsCiphertext(env, all[e], j, arrived[i]) ==>
                   r == Ok(all[e].messages[j])
  {
    hide NonceBytes, ReceiveAll, Ideal;
    OpensInOrder(env, b, k, arrived);
    forall e: nat, j: nat | e < |all| && all[e].key == k && IsCiphertext(env, all[e], j, arrived[i])
      ensures Opened(env, k, i, arrived[i])
              == if SamePlace(i, j) then Ok(all[e].messages[j]) else Err(DecryptionFailed)
    {
      OpensIffInPlace(env, k, j, i, all[e].messages[j], arrived[i]);
    }
  }

  /** Everything accepted is the peer's message of that place. */
  predicate OnlyPeerAccepted(got: seq<Result<Bytes, SessionError>>, peer: Epoch) {
    forall i :: 0 <= i < |got| && got[i].Ok? ==> i < |peer.messages| && got[i] == Ok(peer.messages[i])
  }

  /** Some payload is a packet that an installation of the key sent in this place, and not the peer's current one. */
  ghost predicate Strayed(env: Env, k: Key, all: seq<Epoch>, peer: Epoch, arrived: seq<Bytes>) {
    exists i: nat {:trigger SentInPlace(env, k, all, i, arrived[i])} ::
      i < |arrived| && SentInPlace(env, k, all, i, arrived[i]) && !IsCiphertext(env, peer, i, arrived[i])
  }

  /** Only the messages of the peer's current installation are accepted if and only if no packet of another
      installation of the key, the receiver's own included, arrives in the place it was sent in. */
  lemma ChannelIsSafeIff(env: Env, k: Key, b: Session, all: seq<Epoch>, peer: Epoch, arrived: seq<Bytes>)
    requires Ideal(env, k) && NobodyElseSeals(env, k, all, arrived) && ReadyToReceive(b, k)
    requires peer in all && peer.key == k
    ensures OnlyPeerAccepted(ReceiveAll(env, b, arrived).1, peer) <==> !Strayed(env, k, all, peer, arrived)
  {
    hide NonceBytes, ReceiveAll, NobodyElseSeals, SentInPlace;
    OpensInOrder(env, b, k, arrived);
    var got := ReceiveAll(env, b, arrived).1;
    forall i: nat | i < |arrived|
      ensures got[i].Ok? <==> SentInPlace(env, k, all, i, arrived[i])
      ensures IsCiphertext(env, peer, i, arrived[i]) <==> i < |peer.messages| && got[i] == Ok(peer.messages[i])
    {
      AcceptedIffInPlace(env, k, b, all, arrived, i);
      PeerMessageIff(env, k, peer, i, arrived[i]);
    }
  }

  /** A payload yields the peer's message of its place exactly when it is the peer's packet of that place. */
  lemma PeerMessageIff(env: Env, k: Key, peer: Epoch, i: nat, c: Bytes)
    requires Ideal(env, k) && peer.key == k
    ensures IsCiphertext(env, peer, i, c) <==> i < |peer.messages| && Opened(env, k, i, c) == Ok(peer.messages[i])
  {
    hide NonceBytes;
  }

  /** Packets do come back: an end that gets its own accepts them all as the peer's. */
  lemma ReflectionIsAccepted(env: Env, k: Key, b: Session, own: seq<Bytes>, arrived: seq<Bytes>)
    requires Ideal(env, k) && ReadyToSend(b, k) && ReadyToReceive(b, k) && |arrived| <= |own|
    requires forall i :: 0 <= i < |arrived| ==> IsPacket(SendAll(env, b, own).1, i, arrived[i])
    ensures var (b', sent) := SendAll(env, b, own);
            var got := ReceiveAll(env, b', arrived).1;
            |got| == |arrived| && forall i :: 0 <= i < |arrived| ==> got[i] == Ok(own[i])
  {
    hide Ideal, SendAll, ReceiveAll, IsPacket;
    SendsInOrder(env, b, k, own);
    FifoDelivers(env, k, b, SendAll(env, b, own).0, own, arrived);
  }

  /** And packets are accepted again: after a second handshake with the same answer, a packet taken before is taken
      once more. */
  lemma ReplayIsAccepted(env: Env, response: Bytes, exchange: Bytes, msg: Bytes, c: Bytes)
    requires |response| >= 32 && ParseNegotiation(exchange, env.lossy).Some?
    requires var k := env.derive(response[..32]); Ideal(env, k) && env.seal(k, NonceBytes(0), msg) == Some(c)
    ensures var h := Handshake(response, exchange);
            var first, second := Run(env, h).s, Run(env, h + [Decrypt(c)] + h).s;
            && ReceiveAll(env, first, [c]).1 == [Ok(msg)] && ReadyToReceive(second, env.derive(response[..32]))
            && ReceiveAll(env, second, [c]).1 == [Ok(msg)]
  {
    hide NonceBytes, ParseNegotiation, Run, ReceiveAll;
    var k, h := env.derive(response[..32]), Handshake(response, exchange);
    HandshakeInstalls(env, [], response, exchange);
    assert [] + h == h;
    HandshakeInstalls(env, h + [Decrypt(c)], response, exchange);
    OpensIffInPlace(env, k, 0, 0, msg, c);
    OpensInOrder(env, Run(env, h).s, k, [c]);
    OpensInOrder(env, Run(env, h + [Decrypt(c)] + h).s, k, [c]);
  }

  lemma NextPlaceDiffers(i: nat)
    ensures !SamePlace(i + 1, i)
  {
  }

  /** One foreign payload, accepted or not, makes the receiver refuse every packet that follows it. */
  lemma InsertionDesynchronises(
    env: Env, k: Key, a: Session, b: Session,
    msgs: seq<Bytes>, before: seq<Bytes>, foreign: Bytes, after: seq<Bytes>, i: nat)
    requires Ideal(env, k) && ReadyToSend(a, k) && ReadyToReceive(b, k)
    requires |before| + |after| <= |msgs| && i < |after|
    requires forall j :: 0 <= j < |after| ==> IsPacket(SendAll(env, a, msgs).1, |before| + j, after[j])
    ensures var got := ReceiveAll(env, b, before + [foreign] + after).1;
            |got| == |before| + 1 + |after| && got[|before| + 1 + i] == Err(DecryptionFailed)
  {
    hide Ideal, SendAll, ReceiveAll, IsPacket;
    var arrived := before + [foreign] + after;
    assert arrived[|before| + 1 + i] == after[i];
    DeliveredIffInPlace(env, k, a, b, msgs, arrived, |before| + 1 + i, |before| + i);
    NextPlaceDiffers(|before| + i);
  }

  // ---------------------------------------------------------------------
  // Sealing, framing, and back
  // ---------------------------------------------------------------------

  /** The packets of sends that all succeeded. */
  function Packets(sent: seq<Result<Packet, SessionError>>): (ps: seq<Packet>)
    requires forall i :: 0 <= i < |sent| ==> sent[i].Ok?
    ensures |ps| == |sent| && forall i :: 0 <= i < |sent| ==> ps[i] == sent[i].value
  {
    seq(|sent|, i requires 0 <= i < |sent| => sent[i].value)
  }

  function Payloads(ps: seq<Packet>): (cs: seq<Bytes>)
    ensures |cs| == |ps| && forall i :: 0 <= i < |ps| ==> cs[i] == ps[i].payload
  {
    seq(|ps|, i requires 0 <= i < |ps| => ps[i].payload)
  }

  /** What the receiver has opened after some payloads does not depend on those that follow. */
  lemma {:induction false} ReceivedSoFar(env: Env, s: Session, payloads: seq<Bytes>, n: nat)
    requires n <= |payloads|
    ensures |ReceiveAll(env, s, payloads).1| == |payloads|
    ensures ReceiveAll(env, s, payloads).1[..n] == ReceiveAll(env, s, payloads[..n]).1
    decreases |payloads|
  {
    hide DecryptStep;
    if n == |payloads| {
      assert payloads[..n] == payloads;
      if n > 0 { ReceivedSoFar(env, s, payloads[..n - 1], n - 1); }
    } else {
      ReceivedSoFar(env, s, payloads[..|payloads| - 1], n);
      assert payloads[..|payloads| - 1][..n] == payloads[..n];
    }
  }

  /** Messages sealed, framed back to back, decoded and opened are the messages again if and only if every ciphertext
      is shorter than 65536 bytes. */
  lemma TunnelRoundTripIff(env: Env, k: Key, a: Session, b: Session, msgs: seq<Bytes>)
    requires Ideal(env, k) && ReadyToSend(a, k) && ReadyToReceive(b, k)
    requires forall i :: 0 <= i < |SendAll(env, a, msgs).1| ==> SendAll(env, a, msgs).1[i].Ok?
    ensures var ps := Packets(SendAll(env, a, msgs).1);
            var received := ReceiveAll(env, b, Payloads(DecodeStream(EncodeStream(ps)).0)).1;
            (|received| == |msgs| && forall i :: 0 <= i < |msgs| ==> received[i] == Ok(msgs[i]))
            <==> forall i :: 0 <= i < |ps| ==> |ps[i].payload| < U16
  {
    hide NonceBytes, Ideal, SendAll, ReceiveAll, EncodeStream, DecodeStream;
    SendsInOrder(env, a, k, msgs);
    var ps := Packets(SendAll(env, a, msgs).1);
    if forall i :: 0 <= i < |ps| ==> |ps[i].payload| < U16 {
      StreamRoundTrip(ps);
      FifoDelivers(env, k, a, b, msgs, Payloads(ps));
    } else {
      var j := LongPacketIsCut(ps);
      var decoded := Payloads(DecodeStream(EncodeStream(ps)).0);
      assert |decoded[j]| < |ps[j].payload|;
      ReceivedSoFar(env, b, decoded, j + 1);
      OpensInOrder(env, b, k, decoded[..j + 1]);
      WrongCiphertext(env, k, j, msgs[j], ps[j].payload, decoded[j]);
      assert ReceiveAll(env, b, decoded).1[j] == ReceiveAll(env, b, decoded).1[..j + 1][j];
    }
  }

  /** Anything but a message's ciphertext does not open as that message. */
  lemma WrongCiphertext(env: Env, k: Key, j: nat, msg: Bytes, c: Bytes, other: Bytes)
    requires Ideal(env, k) && env.seal(k, NonceBytes(j % U64), msg) == Some(c) && other != c
    ensures env.open(k, NonceBytes(j % U64), other) != Some(msg)
  {
  }

  /** In a stream with an overlong packet, the first such packet is decoded with less than its payload. */
  lemma {:induction false} LongPacketIsCut(ps: seq<Packet>) returns (j: nat)
    requires exists i :: 0 <= i < |ps| && |ps[i].payload| >= U16
    ensures j < |ps| && j < |DecodeStream(EncodeStream(ps)).0|
    ensures |DecodeStream(EncodeStream(ps)).0[j].payload| < |ps[j].payload|
  {
    var rest := EncodeStream(ps[1..]);
    var p := ps[0];
    assert EncodeStream(ps) == EncodePacket(p) + rest;
    if |p.payload| >= U16 {
      CutPacket(p, rest);
      j := 0;
    } else {
      hide EncodePacket, ParsePacket;
      PacketRoundTripIff(p, rest);
      assert (EncodePacket(p) + rest)[|EncodePacket(p)|..] == rest;
      var i := LongPacketIsCut(ps[1..]);
      j := i + 1;
    }
  }

  lemma CutPacket(p: Packet, suffix: Bytes)
    requires |p.payload| >= U16
    ensures var r := ParsePacket(EncodePacket(p) + suffix);
            r.Some? && |r.value.0.payload| < |p.payload|
  {
    hide LeBytes, LeValue;
    HeaderLength(p, suffix);
  }
}
