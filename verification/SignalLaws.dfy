/** What each signal call changes, signal by signal, and what sending one leads to. */
module SignalLaws {
  import opened Common
  import opened Signals

  predicate Exists(w: World, pid: Pid) { 1 <= pid <= |w.procs| }

  function Of(w: World, pid: Pid): Process
    requires Exists(w, pid)
  {
    w.procs[pid - 1]
  }

  /** Nothing differs but one process, and of that process only the masks. */
  ghost predicate OnlyMasks(w: World, w': World, pid: Pid)
    requires Exists(w, pid)
  {
    && w'.tables == w.tables && |w'.procs| == |w.procs|
    && (forall p: Pid :: Exists(w, p) && p != pid ==> Of(w', p) == Of(w, p))
    && Of(w', pid).state == Of(w, pid).state && Of(w', pid).exitCode == Of(w, pid).exitCode
  }

  /** A signal can be sent to every process that is not terminated, and is then pending beside what was. */
  lemma SendExactly(w: World, pid: Pid, sig: Signal)
    ensures var (w', ok) := SendStep(w, pid, sig);
            && (ok <==> Exists(w, pid) && Of(w, pid).state != Terminated) && (!ok ==> w' == w)
            && (ok ==> && OnlyMasks(w, w', pid) && Of(w', pid).blocked == Of(w, pid).blocked
                       && forall s :: s in Of(w', pid).pending <==> s in Of(w, pid).pending || s == sig)
  {
  }

  /** Setting an action changes that action of that process; kill and stop have none to set. */
  lemma SetActionExactly(w: World, pid: Pid, sig: Signal, action: Action, p: Pid, s: Signal)
    requires Shaped(w)
    ensures var (w', ok) := SetActionStep(w, pid, sig, action);
            && (ok <==> Exists(w, pid) && sig != Kill && sig != Stop) && w'.procs == w.procs && Shaped(w')
            && ActionOf(w', p, s) == if ok && p == pid && s == sig then action else ActionOf(w, p, s)
  {
    NumbersDiffer(s, sig);
  }

  lemma NumbersDiffer(s: Signal, t: Signal)
    ensures Number(s) == Number(t) <==> s == t
  {
  }

  /** Blocking adds the signals of the mask, unblocking takes them away, setting replaces all; kill and stop are never
      among the blocked ones afterwards. */
  lemma MaskExactly(w: World, pid: Pid, how: How, mask: Mask)
    ensures var (w', r) := MaskStep(w, pid, how, mask);
            && (r.Ok? <==> Exists(w, pid) && how != BadHow) && (r.Err? ==> w' == w)
            && (r.Err? ==> r.error == if Exists(w, pid) then InvalidArgument else NotFound)
            && (r.Ok? ==>
                  && OnlyMasks(w, w', pid) && Of(w', pid).pending == Of(w, pid).pending
                  && Kill !in Of(w', pid).blocked && Stop !in Of(w', pid).blocked
                  && forall s :: s != Kill && s != Stop ==>
                       var was, now, asked := s in Of(w, pid).blocked, s in Of(w', pid).blocked, s in mask;
                       && (how == Block ==> (now <==> was || asked))
                       && (how == Unblock ==> (now <==> was && !asked))
                       && (how == SetMask ==> (now <==> asked)))
  {
  }

  // ---------------------------------------------------------------------
  // Delivery
  // ---------------------------------------------------------------------

  /** How soon a signal is looked at. */
  function Rank(s: Signal): nat {
    match s
    case Kill => 0 case Term => 1 case Int => 2 case Quit => 3 case Hup => 4
    case Usr1 => 5 case Usr2 => 6 case Chld => 7 case Cont => 8 case Stop => 9
  }

  lemma RankIsPlace(s: Signal)
    ensures Rank(s) < |ORDER| && ORDER[Rank(s)] == s
    ensures forall k :: 0 <= k < |ORDER| && ORDER[k] == s ==> k == Rank(s)
  {
  }

  predicate Deliverable(w: World, pid: Pid, s: Signal) {
    Exists(w, pid) && s in Of(w, pid).pending && s !in Of(w, pid).blocked
  }

  /** A deliverable signal that does something: it has a handler, or its default is to terminate. */
  predicate Acts(w: World, pid: Pid, s: Signal)
    requires Shaped(w)
  {
    && Deliverable(w, pid, s)
    && (ActionOf(w, pid, s).Handler? || (ActionOf(w, pid, s) == Default && s != Chld && s != Cont && s != Stop))
  }

  predicate ActsFirst(w: World, pid: Pid, s: Signal)
    requires Shaped(w)
  {
    Acts(w, pid, s) && forall t :: Acts(w, pid, t) ==> Rank(s) <= Rank(t)
  }

  lemma StopsIffActs(w: World, pid: Pid, k: nat)
    requires Shaped(w) && k < |ORDER|
    ensures Stops(w, pid, k) <==> Acts(w, pid, ORDER[k])
  {
  }

  lemma {:induction false} FirstIsBelow(k: nat, s: Signal)
    requires k <= |ORDER|
    ensures s in First(k) <==> Rank(s) < k
  {
    if k > 0 {
      FirstIsBelow(k - 1, s);
      RankIsPlace(s);
      RankIsPlace(ORDER[k - 1]);
    }
  }

  /** One delivery: the first signal that does something is cleared together with every deliverable one before it, and
      its handler is answered, or the process ends with 128 plus its number. */
  lemma DeliverExactly(w: World, pid: Pid, s: Signal)
    requires Shaped(w) && ActsFirst(w, pid, s)
    ensures var (w', r) := DeliverStep(w, pid);
            && w'.tables == w.tables && |w'.procs| == |w.procs|
            && (forall p: Pid :: Exists(w, p) && p != pid ==> Of(w', p) == Of(w, p))
            && Of(w', pid).blocked == Of(w, pid).blocked
            && (forall t :: t in Of(w', pid).pending
                            <==> t in Of(w, pid).pending && !(Deliverable(w, pid, t) && Rank(t) <= Rank(s)))
            && match ActionOf(w, pid, s)
               case Handler(a) => r == Some((s, a)) && Of(w', pid).state == Of(w, pid).state
                                  && Of(w', pid).exitCode == Of(w, pid).exitCode
               case _ => r == None && Of(w', pid).state == Terminated && Of(w', pid).exitCode == 128 + Number(s)
  {
    hide FirstStop, First, Rank, ActsFirst, Acts, ActionOf;
    ScanStopsAtFirst(w, pid, s);
    forall t: Signal ensures t in First(Rank(s) + 1) <==> Rank(t) <= Rank(s) { FirstIsBelow(Rank(s) + 1, t); }
  }

  lemma ScanStopsAtFirst(w: World, pid: Pid, s: Signal)
    requires Shaped(w) && ActsFirst(w, pid, s)
    ensures FirstStop(w, pid, 0) == Rank(s) < |ORDER| && ORDER[Rank(s)] == s && Exists(w, pid)
  {
    RankIsPlace(s);
    var k := FirstStop(w, pid, 0);
    StopsIffActs(w, pid, Rank(s));
    if k < |ORDER| {
      StopsIffActs(w, pid, k);
      RankIsPlace(ORDER[k]);
    }
    hide FirstStop, Rank, ActionOf;
  }

  /** With nothing to do, delivery clears every deliverable signal and answers nothing. */
  lemma DeliverNothing(w: World, pid: Pid)
    requires Shaped(w) && Exists(w, pid) && forall s :: !Acts(w, pid, s)
    ensures var (w', r) := DeliverStep(w, pid);
            && r == None && OnlyMasks(w, w', pid) && Of(w', pid).blocked == Of(w, pid).blocked
            && forall t :: t in Of(w', pid).pending <==> t in Of(w, pid).pending && t in Of(w, pid).blocked
  {
    var k := FirstStop(w, pid, 0);
    if k < |ORDER| { StopsIffActs(w, pid, k); }
    forall t: Signal ensures t in First(|ORDER|) {
      FirstIsBelow(|ORDER|, t);
      RankIsPlace(t);
    }
    hide FirstStop, First, Rank, Acts;
  }

  /** A handled signal sent to a live process that does not block it, with nothing else pending, is what the next
      delivery answers, and then nothing is pending. */
  lemma SentIsDelivered(w: World, pid: Pid, sig: Signal, address: nat)
    requires Shaped(w) && Exists(w, pid) && Of(w, pid).state != Terminated && Of(w, pid).pending == {}
    requires sig != Kill && sig != Stop && sig !in Of(w, pid).blocked
    ensures var caught := SetActionStep(w, pid, sig, Handler(address)).0;
            && Shaped(caught) && var sent := SendStep(caught, pid, sig).0;
            && Shaped(sent) && var (w', r) := DeliverStep(sent, pid);
            r == Some((sig, address)) && Of(w', pid) == Of(w, pid)
  {
    var w1 := SetActionStep(w, pid, sig, Handler(address)).0;
    SetActionExactly(w, pid, sig, Handler(address), pid, sig);
    SendExactly(w1, pid, sig);
    var w2 := SendStep(w1, pid, sig).0;
    hide SetActionStep, SendStep, DeliverStep;
    assert ActionOf(w2, pid, sig) == Handler(address);
    assert ActsFirst(w2, pid, sig);
    DeliverExactly(w2, pid, sig);
    var w3 := DeliverStep(w2, pid).0;
    assert Of(w3, pid).pending == {};
  }
}
