/** The wire format of Brane session packets and capability negotiations. */
module SessionCodec {
  import opened Common
  import opened Endian

  type Bytes = seq<Byte>

  // ---------------------------------------------------------------------
  // Packets
  // ---------------------------------------------------------------------

  datatype PacketType = HandshakeInit | HandshakeResponse | CapabilityExchange | EncryptedData | Alert | Disconnect

  datatype Packet = Packet(ptype: PacketType, payload: Bytes)

  function TypeByte(t: PacketType): Byte {
    match t
    case HandshakeInit => 1 case HandshakeResponse => 2 case CapabilityExchange => 3
    case EncryptedData => 4 case Alert => 5 case Disconnect => 6
  }

  function TypeOf(b: Byte): Option<PacketType> {
    match b
    case 1 => Some(HandshakeInit) case 2 => Some(HandshakeResponse) case 3 => Some(CapabilityExchange)
    case 4 => Some(EncryptedData) case 5 => Some(Alert) case 6 => Some(Disconnect)
    case _ => None
  }

  /** Type, a reserved zero, the payload length cut to 16 bits, the payload. */
  function EncodePacket(p: Packet): Bytes {
    [TypeByte(p.ptype), 0] + LeBytes(|p.payload| % U16, 2) + p.payload
  }

  function ParsePacket(data: Bytes): Option<(Packet, nat)> {
    if |data| < 4 then None
    else if TypeOf(data[0]) == None then None
    else
      var length := LeValue(data[2..4]);
      if |data| < 4 + length then None
      else Some((Packet(TypeOf(data[0]).value, data[4..4 + length]), 4 + length))
  }

  lemma HeaderLength(p: Packet, suffix: Bytes)
    ensures var data := EncodePacket(p) + suffix;
            && |data| == 4 + |p.payload| + |suffix| && TypeOf(data[0]) == Some(p.ptype)
            && LeValue(data[2..4]) == |p.payload| % U16
            && data[4..] == p.payload + suffix
  {
    hide LeBytes, LeValue, Pow256;
    var data := EncodePacket(p) + suffix;
    Widths();
    LeRoundTrip(|p.payload| % U16, 2);
    assert data[2..4] == LeBytes(|p.payload| % U16, 2);
  }

  /** Whatever follows it, a packet is parsed back with its exact length if and only if its payload
      is shorter than 65536 bytes. */
  lemma PacketRoundTripIff(p: Packet, suffix: Bytes)
    ensures ParsePacket(EncodePacket(p) + suffix) == Some((p, |EncodePacket(p)|)) <==> |p.payload| < U16
  {
    hide LeBytes, LeValue;
    HeaderLength(p, suffix);
    var data := EncodePacket(p) + suffix;
    if |p.payload| < U16 {
      assert data[4..4 + |p.payload|] == data[4..][..|p.payload|] == p.payload;
    }
  }

  /** No shorter piece of a packet parses. */
  lemma PacketNeedsAllBytes(p: Packet, k: nat)
    requires |p.payload| < U16 && k < |EncodePacket(p)|
    ensures ParsePacket(EncodePacket(p)[..k]) == None
  {
    hide LeBytes, LeValue;
    HeaderLength(p, []);
    var data := EncodePacket(p);
    assert data + [] == data;
    if k >= 4 { assert data[..k][2..4] == data[2..4]; }
  }

  /** What was parsed is what was there: re-encoding gives the bytes consumed, with the reserved byte zeroed. */
  lemma ParsedReencodes(data: Bytes)
    ensures var r := ParsePacket(data);
            r.Some? ==> && r.value.1 <= |data| && |r.value.0.payload| < U16
                        && EncodePacket(r.value.0) == data[..r.value.1][1 := 0]
  {
    hide LeBytes, LeValue;
    var r := ParsePacket(data);
    if r.Some? {
      var (p, n) := r.value;
      Widths();
      LeCanonical(data[2..4]);
      assert LeBytes(|p.payload| % U16, 2) == data[2..4];
      var out, original := EncodePacket(p), data[..n][1 := 0];
      assert TypeByte(p.ptype) == data[0];
      assert out[2..4] == LeBytes(|p.payload| % U16, 2);
      assert original[2..4] == data[2..4];
      assert out == out[..2] + out[2..4] + out[4..];
      assert original == original[..2] + original[2..4] + original[4..];
      assert original[4..] == p.payload;
      assert original[..2] == [data[0], 0];
    }
  }

  function EncodeStream(ps: seq<Packet>): Bytes {
    if ps == [] then [] else EncodePacket(ps[0]) + EncodeStream(ps[1..])
  }

  /** Parse packets until the rest no longer starts with one. */
  function DecodeStream(data: Bytes): (seq<Packet>, Bytes)
    decreases |data|
  {
    match ParsePacket(data)
    case None => ([], data)
    case Some((p, n)) => var (ps, rest) := DecodeStream(data[n..]); ([p] + ps, rest)
  }

  /** Packets sent back to back decode to themselves, in order, with nothing left over. */
  lemma {:induction false} StreamRoundTrip(ps: seq<Packet>)
    requires forall p :: p in ps ==> |p.payload| < U16
    ensures DecodeStream(EncodeStream(ps)) == (ps, [])
  {
    hide EncodePacket, ParsePacket;
    if ps == [] {
      assert ParsePacket([]) == None by { EmptyIsNoPacket(); }
    } else {
      var rest := EncodeStream(ps[1..]);
      PacketRoundTripIff(ps[0], rest);
      assert (EncodePacket(ps[0]) + rest)[|EncodePacket(ps[0])|..] == rest;
      StreamRoundTrip(ps[1..]);
      assert ps == [ps[0]] + ps[1..];
    }
  }

  lemma EmptyIsNoPacket()
    ensures ParsePacket([]) == None
  {
  }

  /** A byte stream is the encoding of at most one sequence of packets. */
  lemma StreamIsUnique(ps: seq<Packet>, qs: seq<Packet>)
    requires (forall p :: p in ps ==> |p.payload| < U16) && (forall q :: q in qs ==> |q.payload| < U16)
    requires EncodeStream(ps) == EncodeStream(qs)
    ensures ps == qs
  {
    StreamRoundTrip(ps);
    StreamRoundTrip(qs);
  }

  // ---------------------------------------------------------------------
  // Capability negotiations
  // ---------------------------------------------------------------------

  datatype Offer = Offer(name: Bytes, permissions: nat, risk: Byte)

  datatype Negotiation = Negotiation(offered: seq<Offer>, required: seq<Bytes>, node: Bytes, timestamp: nat)

  /** Field widths of the source's types; names are the UTF-8 bytes of strings. */
  predicate WellTyped(n: Negotiation) {
    |n.node| == 16 && n.timestamp < U64 && forall i :: 0 <= i < |n.offered| ==> n.offered[i].permissions < U32
  }

  /** A name with its length cut to a byte. */
  function EncodeName(name: Bytes): Bytes {
    [(|name| % 256) as Byte] + name
  }

  function EncodeOffer(o: Offer): Bytes {
    EncodeName(o.name) + LeBytes(o.permissions, 4) + [o.risk]
  }

  function EncodeOffers(os: seq<Offer>): Bytes {
    if os == [] then [] else EncodeOffer(os[0]) + EncodeOffers(os[1..])
  }

  function EncodeNames(names: seq<Bytes>): Bytes {
    if names == [] then [] else EncodeName(names[0]) + EncodeNames(names[1..])
  }

  function EncodeNegotiation(n: Negotiation): Bytes {
    n.node + LeBytes(n.timestamp, 8) + [(|n.offered| % 256) as Byte] + EncodeOffers(n.offered)
    + [(|n.required| % 256) as Byte] + EncodeNames(n.required)
  }

  /** A name and the position after it; `lossy` repairs bytes that are not UTF-8. */
  function ParseName(data: Bytes, at: nat, lossy: Bytes -> Bytes): (r: Option<(Bytes, nat)>)
    ensures r.Some? ==> at < r.value.1 <= |data|
  {
    if at >= |data| then None
    else
      var end := at + 1 + data[at] as nat;
      if end > |data| then None else Some((lossy(data[at + 1..end]), end))
  }

  function ParseOffer(data: Bytes, at: nat, lossy: Bytes -> Bytes): (r: Option<(Offer, nat)>)
    ensures r.Some? ==> at < r.value.1 <= |data|
  {
    match ParseName(data, at, lossy)
    case None => None
    case Some((name, p)) =>
      if p + 5 > |data| then None
      else Some((Offer(name, LeValue(data[p..p + 4]), data[p + 4]), p + 5))
  }

  function ParseOffers(data: Bytes, at: nat, count: nat, lossy: Bytes -> Bytes): (r: Option<(seq<Offer>, nat)>)
    ensures r.Some? ==> |r.value.0| == count
    decreases count
  {
    if count == 0 then Some(([], at))
    else
      match ParseOffer(data, at, lossy)
      case None => None
      case Some((o, p)) =>
        match ParseOffers(data, p, count - 1, lossy)
        case None => None
        case Some((os, e)) => Some(([o] + os, e))
  }

  function ParseNames(data: Bytes, at: nat, count: nat, lossy: Bytes -> Bytes): (r: Option<(seq<Bytes>, nat)>)
    ensures r.Some? ==> |r.value.0| == count
    decreases count
  {
    if count == 0 then Some(([], at))
    else
      match ParseName(data, at, lossy)
      case None => None
      case Some((name, p)) =>
        match ParseNames(data, p, count - 1, lossy)
        case None => None
        case Some((names, e)) => Some(([name] + names, e))
  }

  function ParseNegotiation(data: Bytes, lossy: Bytes -> Bytes): Option<Negotiation> {
    if |data| < 25 then None
    else
      match ParseOffers(data, 25, data[24] as nat, lossy)
      case None => None
      case Some((offered, p)) =>
        if p >= |data| then None
        else
          match ParseNames(data, p + 1, data[p] as nat, lossy)
          case None => None
          case Some((required, _)) => Some(Negotiation(offered, required, data[..16], LeValue(data[16..24])))
  }

  /** `data` holds `piece` at `at`. */
  predicate Holds(data: Bytes, at: nat, piece: Bytes) {
    at + |piece| <= |data| && data[at..at + |piece|] == piece
  }

  lemma HoldsSplit(data: Bytes, at: nat, a: Bytes, b: Bytes)
    requires Holds(data, at, a + b)
    ensures Holds(data, at, a) && Holds(data, at + |a|, b)
  {
    var whole := data[at..at + |a + b|];
    assert data[at..at + |a|] == whole[..|a|] == a;
    assert data[at + |a|..at + |a| + |b|] == whole[|a|..] == b;
  }

  lemma HoldsAt(data: Bytes, at: nat, piece: Bytes)
    requires Holds(data, at, piece)
    ensures forall p :: at <= p < at + |piece| ==> data[p] == piece[p - at]
  {
    forall p | at <= p < at + |piece| ensures data[p] == piece[p - at] {
      assert data[p] == data[at..at + |piece|][p - at];
    }
  }

  /** A name's decoding: the whole name if its length fits a byte, otherwise only its start. */
  lemma NameDecodes(data: Bytes, at: nat, name: Bytes, lossy: Bytes -> Bytes)
    requires Holds(data, at, EncodeName(name))
    ensures ParseName(data, at, lossy) == Some((lossy(name[..|name| % 256]), at + 1 + |name| % 256))
    ensures |name| < 256 ==> ParseName(data, at, lossy) == Some((lossy(name), at + |EncodeName(name)|))
  {
    var e, n := EncodeName(name), |name| % 256;
    HoldsAt(data, at, e);
    assert data[at + 1..at + 1 + n] == name[..n];
    if |name| < 256 { assert name[..n] == name; }
  }

  lemma OfferRoundTrip(data: Bytes, at: nat, o: Offer, lossy: Bytes -> Bytes)
    requires Holds(data, at, EncodeOffer(o)) && |o.name| < 256 && lossy(o.name) == o.name && o.permissions < U32
    ensures ParseOffer(data, at, lossy) == Some((o, at + |EncodeOffer(o)|))
  {
    hide LeBytes, LeValue, Pow256, EncodeName;
    assert EncodeOffer(o) == EncodeName(o.name) + (LeBytes(o.permissions, 4) + [o.risk]);
    HoldsSplit(data, at, EncodeName(o.name), LeBytes(o.permissions, 4) + [o.risk]);
    NameDecodes(data, at, o.name, lossy);
    var p := at + |EncodeName(o.name)|;
    HoldsSplit(data, p, LeBytes(o.permissions, 4), [o.risk]);
    Widths();
    LeRoundTrip(o.permissions, 4);
  }

  /** A name that every step of the codec leaves alone. */
  predicate Plain(name: Bytes, lossy: Bytes -> Bytes) { |name| < 256 && lossy(name) == name }

  predicate PlainOffer(o: Offer, lossy: Bytes -> Bytes) { Plain(o.name, lossy) && o.permissions < U32 }

  lemma {:induction false} OffersRoundTrip(data: Bytes, at: nat, os: seq<Offer>, lossy: Bytes -> Bytes)
    requires Holds(data, at, EncodeOffers(os)) && forall i :: 0 <= i < |os| ==> PlainOffer(os[i], lossy)
    ensures ParseOffers(data, at, |os|, lossy) == Some((os, at + |EncodeOffers(os)|))
    decreases |os|
  {
    hide EncodeOffer, ParseOffer, Holds;
    if os != [] {
      HoldsSplit(data, at, EncodeOffer(os[0]), EncodeOffers(os[1..]));
      assert PlainOffer(os[0], lossy);
      OfferRoundTrip(data, at, os[0], lossy);
      OffersRoundTrip(data, at + |EncodeOffer(os[0])|, os[1..], lossy);
      assert os == [os[0]] + os[1..];
    }
  }

  lemma {:induction false} NamesRoundTrip(data: Bytes, at: nat, names: seq<Bytes>, lossy: Bytes -> Bytes)
    requires Holds(data, at, EncodeNames(names)) && forall i :: 0 <= i < |names| ==> Plain(names[i], lossy)
    ensures ParseNames(data, at, |names|, lossy) == Some((names, at + |EncodeNames(names)|))
    decreases |names|
  {
    hide EncodeName, ParseName, Holds;
    if names != [] {
      HoldsSplit(data, at, EncodeName(names[0]), EncodeNames(names[1..]));
      assert Plain(names[0], lossy);
      NameDecodes(data, at, names[0], lossy);
      NamesRoundTrip(data, at + |EncodeName(names[0])|, names[1..], lossy);
      assert names == [names[0]] + names[1..];
    }
  }

  /** Where the pieces of an encoded negotiation lie. */
  lemma Layout(n: Negotiation)
    requires |n.node| == 16
    ensures var data := EncodeNegotiation(n);
            var p := 25 + |EncodeOffers(n.offered)|;
            && |data| == p + 1 + |EncodeNames(n.required)|
            && data[..16] == n.node && data[16..24] == LeBytes(n.timestamp, 8)
            && data[24] as nat == |n.offered| % 256 && Holds(data, 25, EncodeOffers(n.offered))
            && data[p] as nat == |n.required| % 256 && Holds(data, p + 1, EncodeNames(n.required))
  {
    hide LeBytes, EncodeOffers, EncodeNames;
  }

  /** A negotiation whose counts fit a byte and whose names fit one and are valid text decodes to itself. */
  lemma NegotiationRoundTrip(n: Negotiation, lossy: Bytes -> Bytes)
    requires WellTyped(n) && |n.offered| < 256 && |n.required| < 256
    requires forall i :: 0 <= i < |n.offered| ==> Plain(n.offered[i].name, lossy)
    requires forall i :: 0 <= i < |n.required| ==> Plain(n.required[i], lossy)
    ensures ParseNegotiation(EncodeNegotiation(n), lossy) == Some(n)
  {
    hide LeBytes, LeValue, Pow256, EncodeOffers, EncodeNames, EncodeNegotiation, ParseOffers, ParseNames, Holds, Plain;
    Layout(n);
    var data := EncodeNegotiation(n);
    OffersRoundTrip(data, 25, n.offered, lossy);
    NamesRoundTrip(data, 25 + |EncodeOffers(n.offered)| + 1, n.required, lossy);
    Widths();
    LeRoundTrip(n.timestamp, 8);
  }

  /** Text: repair leaves it alone, and repairing a cut-off beginning of it adds at most two bytes, since only
      the last character can be incomplete and its replacement takes three. */
  ghost predicate Text(name: Bytes, lossy: Bytes -> Bytes) {
    lossy(name) == name && forall j :: 0 <= j <= |name| ==> |lossy(name[..j])| <= j + 2
  }

  lemma LongNameIsCut(data: Bytes, at: nat, name: Bytes, lossy: Bytes -> Bytes)
    requires Holds(data, at, EncodeName(name)) && Text(name, lossy) && |name| >= 256
    ensures ParseName(data, at, lossy).Some? && |ParseName(data, at, lossy).value.0| < |name|
  {
    NameDecodes(data, at, name, lossy);
  }

  lemma {:induction false} LongOfferIsLost(data: Bytes, at: nat, os: seq<Offer>, lossy: Bytes -> Bytes)
    requires Holds(data, at, EncodeOffers(os))
    requires forall i :: 0 <= i < |os| ==> Text(os[i].name, lossy) && os[i].permissions < U32
    requires exists i :: 0 <= i < |os| && |os[i].name| >= 256
    ensures var r := ParseOffers(data, at, |os|, lossy); r.Some? ==> r.value.0 != os
    decreases |os|
  {
    hide Holds, Text, EncodeName, LeBytes, LeValue;
    var o := os[0];
    HoldsSplit(data, at, EncodeOffer(o), EncodeOffers(os[1..]));
    if |o.name| >= 256 {
      assert EncodeOffer(o) == EncodeName(o.name) + (LeBytes(o.permissions, 4) + [o.risk]);
      HoldsSplit(data, at, EncodeName(o.name), LeBytes(o.permissions, 4) + [o.risk]);
      LongNameIsCut(data, at, o.name, lossy);
    } else {
      assert lossy(o.name) == o.name by { TextIsKept(o.name, lossy); }
      OfferRoundTrip(data, at, o, lossy);
      LongOfferIsLost(data, at + |EncodeOffer(o)|, os[1..], lossy);
      assert os == [o] + os[1..];
    }
  }

  lemma TextIsKept(name: Bytes, lossy: Bytes -> Bytes)
    requires Text(name, lossy)
    ensures lossy(name) == name
  {
  }

  lemma {:induction false} LongRequirementIsLost(data: Bytes, at: nat, names: seq<Bytes>, lossy: Bytes -> Bytes)
    requires Holds(data, at, EncodeNames(names))
    requires forall i :: 0 <= i < |names| ==> Text(names[i], lossy)
    requires exists i :: 0 <= i < |names| && |names[i]| >= 256
    ensures var r := ParseNames(data, at, |names|, lossy); r.Some? ==> r.value.0 != names
    decreases |names|
  {
    hide Holds, Text, EncodeName, ParseName;
    var name := names[0];
    HoldsSplit(data, at, EncodeName(name), EncodeNames(names[1..]));
    if |name| >= 256 {
      LongNameIsCut(data, at, name, lossy);
    } else {
      TextIsKept(name, lossy);
      NameDecodes(data, at, name, lossy);
      LongRequirementIsLost(data, at + |EncodeName(name)|, names[1..], lossy);
      assert names == [name] + names[1..];
    }
  }

  predicate OffersFit(n: Negotiation) {
    |n.offered| < 256 && forall i :: 0 <= i < |n.offered| ==> |n.offered[i].name| < 256
  }

  predicate RequirementsFit(n: Negotiation) {
    |n.required| < 256 && forall i :: 0 <= i < |n.required| ==> |n.required[i]| < 256
  }

  lemma UnfitOffersAreLost(n: Negotiation, lossy: Bytes -> Bytes)
    requires WellTyped(n) && !OffersFit(n) && forall i :: 0 <= i < |n.offered| ==> Text(n.offered[i].name, lossy)
    ensures ParseNegotiation(EncodeNegotiation(n), lossy) != Some(n)
  {
    hide LeBytes, LeValue, EncodeOffers, EncodeNames, EncodeNegotiation, ParseOffers, ParseNames, Holds, Text;
    Layout(n);
    if |n.offered| < 256 { LongOfferIsLost(EncodeNegotiation(n), 25, n.offered, lossy); }
  }

  lemma UnfitRequirementsAreLost(n: Negotiation, lossy: Bytes -> Bytes)
    requires WellTyped(n) && OffersFit(n) && !RequirementsFit(n)
    requires forall i :: 0 <= i < |n.offered| ==> Text(n.offered[i].name, lossy)
    requires forall i :: 0 <= i < |n.required| ==> Text(n.required[i], lossy)
    ensures ParseNegotiation(EncodeNegotiation(n), lossy) != Some(n)
  {
    hide LeBytes, LeValue, EncodeOffers, EncodeNames, EncodeNegotiation, ParseOffers, ParseNames, Holds, Text;
    Layout(n);
    var data, p := EncodeNegotiation(n), 25 + |EncodeOffers(n.offered)|;
    forall i | 0 <= i < |n.offered| ensures PlainOffer(n.offered[i], lossy) { TextIsKept(n.offered[i].name, lossy); }
    OffersRoundTrip(data, 25, n.offered, lossy);
    if |n.required| < 256 { LongRequirementIsLost(data, p + 1, n.required, lossy); }
  }

  /** A negotiation of text names survives the wire if and only if both counts and all names fit one byte. */
  lemma NegotiationRoundTripsIff(n: Negotiation, lossy: Bytes -> Bytes)
    requires WellTyped(n)
    requires forall i :: 0 <= i < |n.offered| ==> Text(n.offered[i].name, lossy)
    requires forall i :: 0 <= i < |n.required| ==> Text(n.required[i], lossy)
    ensures ParseNegotiation(EncodeNegotiation(n), lossy) == Some(n) <==> OffersFit(n) && RequirementsFit(n)
  {
    hide ParseNegotiation, EncodeNegotiation, Text;
    if !OffersFit(n) {
      UnfitOffersAreLost(n, lossy);
    } else if !RequirementsFit(n) {
      UnfitRequirementsAreLost(n, lossy);
    } else {
      forall i | 0 <= i < |n.offered| ensures Plain(n.offered[i].name, lossy) { TextIsKept(n.offered[i].name, lossy); }
      forall i | 0 <= i < |n.required| ensures Plain(n.required[i], lossy) { TextIsKept(n.required[i], lossy); }
      NegotiationRoundTrip(n, lossy);
    }
  }

  // ---------------------------------------------------------------------
  // The buffers and offsets that carry it out
  // ---------------------------------------------------------------------

  method OffersToBytes(os: seq<Offer>) returns (buf: Bytes)
    ensures buf == EncodeOffers(os)
  {
    hide EncodeOffer;
    buf := [];
    var i := 0;
    while i < |os|
      invariant i <= |os|
      invariant EncodeOffers(os) == buf + EncodeOffers(os[i..])
    {
      assert os[i..][1..] == os[i + 1..];
      assert buf + EncodeOffers(os[i..]) == (buf + EncodeOffer(os[i])) + EncodeOffers(os[i + 1..]);
      buf := buf + EncodeOffer(os[i]);
      i := i + 1;
    }
  }

  method AppendNames(start: Bytes, names: seq<Bytes>) returns (buf: Bytes)
    ensures buf == start + EncodeNames(names)
  {
    buf := start;
    var i := 0;
    while i < |names|
      invariant i <= |names|
      invariant start + EncodeNames(names) == buf + EncodeNames(names[i..])
    {
      ghost var before := buf;
      buf := buf + [(|names[i]| % 256) as Byte];
      buf := buf + names[i];
      assert buf == before + EncodeName(names[i]);
      assert names[i..][1..] == names[i + 1..];
      assert buf + EncodeNames(names[i + 1..]) == before + EncodeNames(names[i..]);
      i := i + 1;
    }
  }

  method NegotiationToBytes(n: Negotiation) returns (buf: Bytes)
    ensures buf == EncodeNegotiation(n)
  {
    var offers := OffersToBytes(n.offered);
    buf := n.node + LeBytes(n.timestamp, 8) + [(|n.offered| % 256) as Byte] + offers;
    buf := buf + [(|n.required| % 256) as Byte];
    buf := AppendNames(buf, n.required);
  }

  /** The offers after those already read. */
  function Prepend<T>(done: seq<T>, rest: Option<(seq<T>, nat)>): Option<(seq<T>, nat)> {
    match rest case None => None case Some((s, e)) => Some((done + s, e))
  }

  lemma PrependEnds<T>(done: seq<T>, rest: Option<(seq<T>, nat)>)
    ensures Prepend([], rest) == rest
    ensures rest.Some? && rest.value.0 == [] ==> Prepend(done, rest) == Some((done, rest.value.1))
  {
    if rest.Some? {
      assert [] + rest.value.0 == rest.value.0;
      assert done + [] == done;
    }
  }

  method ReadOffers(data: Bytes, start: nat, count: nat, lossy: Bytes -> Bytes) returns (r: Option<(seq<Offer>, nat)>)
    ensures r == ParseOffers(data, start, count, lossy)
  {
    hide ParseOffer;
    var offered, offset: nat := [], start;
    var i := 0;
    PrependEnds([], ParseOffers(data, start, count, lossy));
    while i < count
      invariant i <= count
      invariant ParseOffers(data, start, count, lossy) == Prepend(offered, ParseOffers(data, offset, count - i, lossy))
    {
      var o := ParseOffer(data, offset, lossy);
      if o == None { return None; }
      ghost var rest := ParseOffers(data, o.value.1, count - i - 1, lossy);
      if rest.Some? { assert offered + ([o.value.0] + rest.value.0) == (offered + [o.value.0]) + rest.value.0; }
      offered := offered + [o.value.0];
      offset := o.value.1;
      i := i + 1;
    }
    PrependEnds(offered, ParseOffers(data, offset, 0, lossy));
    r := Some((offered, offset));
  }

  method ReadNames(data: Bytes, start: nat, count: nat, lossy: Bytes -> Bytes) returns (r: Option<(seq<Bytes>, nat)>)
    ensures r == ParseNames(data, start, count, lossy)
  {
    var required, offset: nat := [], start;
    var i := 0;
    PrependEnds([], ParseNames(data, start, count, lossy));
    while i < count
      invariant i <= count
      invariant ParseNames(data, start, count, lossy) == Prepend(required, ParseNames(data, offset, count - i, lossy))
    {
      if offset >= |data| { return None; }
      var end := offset + 1 + data[offset] as nat;
      if end > |data| { return None; }
      var name := lossy(data[offset + 1..end]);
      ghost var rest := ParseNames(data, end, count - i - 1, lossy);
      if rest.Some? { assert required + ([name] + rest.value.0) == (required + [name]) + rest.value.0; }
      required := required + [name];
      offset := end;
      i := i + 1;
    }
    PrependEnds(required, ParseNames(data, offset, 0, lossy));
    r := Some((required, offset));
  }

  method NegotiationFromBytes(data: Bytes, lossy: Bytes -> Bytes) returns (r: Option<Negotiation>)
    ensures r == ParseNegotiation(data, lossy)
  {
    if |data| < 25 { return None; }
    var offered := ReadOffers(data, 25, data[24] as nat, lossy);
    if offered == None { return None; }
    var offset := offered.value.1;
    if offset >= |data| { return None; }
    var required := ReadNames(data, offset + 1, data[offset] as nat, lossy);
    if required == None { return None; }
    r := Some(Negotiation(offered.value.0, required.value.0, data[..16], LeValue(data[16..24])));
  }
}
