/** The two-sided private set union protocol (src/twosided.rs): each party blinds its items
    with a clamped key, shuffles and re-blinds the other's, drops the common ones and
    reveals the rest. */
module TwoSided {
  import opened Wrappers
  import opened Folds
  import opened Groups
  import opened ShuffleArgument
  import opened AdaptedShuffle
  import opened BatchSoundness

  /** The shared setting: parameters, hashing of items to points, and recovery. */
  datatype World<!G, !C, !I> = World(pp: Params<G, C>, hash: I -> G, recover: G -> I)

  /** The group has exponent dividing 8 l. */
  ghost predicate ValidWorld<G(!new), C, I>(w: World<G, C, I>) {
    ValidParams(w.pp) && w.pp.l > 8 && forall P :: CofactorAt(w.pp, P)
  }

  /** A party's state after setup, with the draws it will make later: the two batching
      weights and the nonce of the Diffie-Hellman argument. */
  datatype Party<G, I> = Party(
    server: bool, input: seq<I>, sk8: int, sk: int, skInv: int, sk8Inv: int, pk: G,
    pi: seq<nat>, piInv: seq<nat>, hint: AdaptedHint<G>, a1: int, a2: int, nonce: int)

  /** Party::new with key k8, permutation pair and coins. */
  function NewParty<G, C, I>(w: World<G, C, I>, server: bool, input: seq<I>, k8: int, pi: seq<nat>, piInv: seq<nat>,
                             coins: Coins, a1: int, a2: int, nonce: int): Party<G, I>
    requires w.pp.l > 2 && |pi| == |w.pp.f| && ValidCoins(coins, |w.pp.f|)
  {
    var l := w.pp.l;
    var sk := k8 * ScalarInvert(l, 8);
    var skInv := ScalarInvert(l, sk);
    Party(server, input, k8, sk, skInv, skInv * ScalarInvert(l, 8), Act(w.pp, sk, w.pp.base),
          pi, piInv, Prepare(w.pp, pi, coins), a1, a2, nonce)
  }

  // ---------- rounds ----------

  datatype Message<G, C> =
    | Round1(sigma: int)
    | Round2(pk: G, points: seq<C>)
    | Round3(shuffle: AdaptedProof<C>, shuffled: seq<C>)
    | Round4(ddh: DdhProof<C>, unblinded: seq<C>, ind: seq<nat>)

  /** A computation of one party: a value, an early return of None, or a panic. */
  datatype Outcome<T> = Value(value: T) | Aborted | Panicked

  function Gen<G, C, I>(w: World<G, C, I>, p: Party<G, I>): (r: seq<G>)
    ensures |r| == |p.input| && forall i :: 0 <= i < |r| ==> r[i] == Smul(w.pp.g, p.sk8, w.hash(p.input[i]))
  {
    seq(|p.input|, i requires 0 <= i < |p.input| => Smul(w.pp.g, p.sk8, w.hash(p.input[i])))
  }

  function EncAll<G, C>(pp: Params<G, C>, s: seq<G>): (r: seq<C>)
    ensures |r| == |s| && forall i :: 0 <= i < |s| ==> r[i] == pp.enc(s[i])
  {
    seq(|s|, i requires 0 <= i < |s| => pp.enc(s[i]))
  }

  function DecAll<G, C>(pp: Params<G, C>, s: seq<C>): (r: Option<seq<G>>)
    ensures r.Some? ==> |r.value| == |s|
  {
    if s == [] then Some([])
    else
      var head := pp.dec(s[0]);
      var tail := DecAll(pp, s[1..]);
      if head.Some? && tail.Some? then Some([head.value] + tail.value) else None
  }

  function Sigma<G, C>(pp: Params<G, C>, pk: G, points: seq<C>): int {
    pp.hash([PointBytes(pp.enc(pk))] + PointChunks(points))
  }

  /** gen: the loop pushes one blinded point per item and absorbs its encoding. */
  method GenLoop<G, C, I>(w: World<G, C, I>, p: Party<G, I>) returns (sigma: int, points: seq<G>, encoded: seq<C>)
    ensures points == Gen(w, p) && encoded == EncAll(w.pp, points)
    ensures sigma == Sigma(w.pp, p.pk, encoded)
  {
    points, encoded := [], [];
    var transcript := [PointBytes(w.pp.enc(p.pk))];
    for i := 0 to |p.input|
      invariant points == Gen(w, p)[..i]
      invariant encoded == EncAll(w.pp, points)
      invariant transcript == [PointBytes(w.pp.enc(p.pk))] + PointChunks(encoded)
    {
      var point := Smul(w.pp.g, p.sk8, w.hash(p.input[i]));
      ghost var before := encoded;
      points := points + [point];
      encoded := encoded + [w.pp.enc(point)];
      transcript := transcript + [PointBytes(w.pp.enc(point))];
      assert PointChunks(encoded) == PointChunks(before) + [PointBytes(w.pp.enc(point))];
    }
    assert Gen(w, p)[..|p.input|] == Gen(w, p);
    sigma := w.pp.hash(transcript);
  }

  /** The other party's points, re-blinded in the order of the inverse permutation. */
  function Shuffled<G, C, I>(w: World<G, C, I>, p: Party<G, I>, points: seq<G>): (r: seq<G>)
    requires w.pp.l > 0 && |p.piInv| == |points| && forall i :: 0 <= i < |points| ==> p.piInv[i] < |points|
    ensures |r| == |points| && forall i :: 0 <= i < |r| ==> r[i] == Act(w.pp, p.sk, points[p.piInv[i]])
  {
    seq(|points|, i requires 0 <= i < |points| => Act(w.pp, p.sk, points[p.piInv[i]]))
  }

  predicate ShuffleFits<G, C, I>(w: World<G, C, I>, p: Party<G, I>, n: nat) {
    && n == |w.pp.f| == |p.pi| == |p.piInv| == |p.hint.d| == |p.hint.known.d| == |p.hint.known.delta|
    && (forall i :: 0 <= i < n ==> p.pi[i] < n)
    && (forall i :: 0 <= i < n ==> p.piInv[i] < n)
  }

  /** Round 3: check the digest of round 1 against the points of round 2, then shuffle. */
  function Respond3<G, C, I>(w: World<G, C, I>, p: Party<G, I>, sigma: int, pk: G,
                             points: seq<C>): Outcome<Message<G, C>>
    requires w.pp.l > 0
    requires forall d: int, n: nat :: ExpandAt(w.pp, d, n)
  {
    var decoded := DecAll(w.pp, points);
    if decoded.None? then Panicked
    else if Sigma(w.pp, pk, points) != sigma then Aborted
    else if !ShuffleFits(w, p, |points|) then Panicked
    else
      var shuffled := Shuffled(w, p, decoded.value);
      var enc := EncAll(w.pp, shuffled);
      Value(Round3(ProveAdapted(w.pp, p.pk, p.hint, decoded.value, points, enc, p.sk, p.pi), enc))
  }

  /** Indices below n whose unblinded point is not among the other party's points. */
  function Unmatched<G, C(==), I>(w: World<G, C, I>, p: Party<G, I>, shuffled: seq<G>, other: seq<C>,
                                  n: nat): (r: seq<nat>)
    requires w.pp.l > 0 && n <= |shuffled|
    ensures forall i :: 0 <= i < |r| ==> r[i] < n
  {
    if n == 0 then []
    else
      var rest := Unmatched(w, p, shuffled, other, n - 1);
      if w.pp.enc(Act(w.pp, p.skInv, shuffled[n - 1])) in other then rest else rest + [n - 1]
  }

  function Unblinded<G, C, I>(w: World<G, C, I>, p: Party<G, I>, shuffled: seq<G>, ind: seq<nat>): (r: seq<G>)
    requires w.pp.l > 0 && forall i :: 0 <= i < |ind| ==> ind[i] < |shuffled|
    ensures |r| == |ind| && forall i :: 0 <= i < |r| ==> r[i] == Act(w.pp, p.skInv, shuffled[ind[i]])
  {
    seq(|ind|, i requires 0 <= i < |ind| => Act(w.pp, p.skInv, shuffled[ind[i]]))
  }

  /** final_response's loop: unblind every shuffled point and keep the unmatched ones. */
  method FilterLoop<G, C(==), I>(w: World<G, C, I>, p: Party<G, I>, shuffled: seq<G>, encShuffled: seq<C>,
                                 other: seq<C>)
    returns (unblinded: seq<G>, encUnblinded: seq<C>, shrunk: seq<C>, ind: seq<nat>)
    requires w.pp.l > 0 && |shuffled| == |encShuffled|
    ensures ind == Unmatched(w, p, shuffled, other, |shuffled|)
    ensures unblinded == Unblinded(w, p, shuffled, ind) && encUnblinded == EncAll(w.pp, unblinded)
    ensures shrunk == Gather(encShuffled, ind)
  {
    unblinded, encUnblinded, shrunk, ind := [], [], [], [];
    var members := set c | c in other;
    for i := 0 to |shuffled|
      invariant ind == Unmatched(w, p, shuffled, other, i)
      invariant unblinded == Unblinded(w, p, shuffled, ind) && encUnblinded == EncAll(w.pp, unblinded)
      invariant shrunk == Gather(encShuffled, ind)
    {
      var point := Act(w.pp, p.skInv, shuffled[i]);
      var encoded := w.pp.enc(point);
      if encoded !in members {
        unblinded := unblinded + [point];
        encUnblinded := encUnblinded + [encoded];
        ind := ind + [i];
        shrunk := shrunk + [encShuffled[i]];
      }
    }
  }

  /** Round 4: verify the shuffle of one's own points, keep the unmatched ones and prove the
      unblinding. */
  function Respond4<G(==), C(==), I>(w: World<G, C, I>, p: Party<G, I>, otherPk: G, other: seq<C>,
                                     proof: AdaptedProof<C>, shuffled: seq<C>): Outcome<Message<G, C>>
    requires w.pp.l > 2
    requires forall d: int, n: nat :: ExpandAt(w.pp, d, n)
  {
    var points := Gen(w, p);
    var decoded := DecAll(w.pp, shuffled);
    if decoded.None? then Panicked
    else
      var verdict := VerifyAdapted(w.pp, otherPk, points, decoded.value, EncAll(w.pp, points), shuffled, proof, p.a1,
        p.a2);
      if verdict == Reject then Aborted
      else if verdict == Panic || |shuffled| < |p.input| then Panicked
      else
        var ind := Unmatched(w, p, decoded.value, other, |p.input|);
        var unblinded := Unblinded(w, p, decoded.value, ind);
        var enc := EncAll(w.pp, unblinded);
        Value(Round4(DdhProve(w.pp, p.pk, unblinded, enc, Gather(shuffled, ind), p.sk, p.nonce), enc, ind))
  }

  function Recovered<G, C, I>(w: World<G, C, I>, p: Party<G, I>, unblinded: seq<G>): (r: seq<I>)
    requires w.pp.l > 0
    ensures |r| == |unblinded| && forall i :: 0 <= i < |r| ==> r[i] == w.recover(Act(w.pp, p.sk8Inv, unblinded[i]))
  {
    seq(|unblinded|, i requires 0 <= i < |unblinded| => w.recover(Act(w.pp, p.sk8Inv, unblinded[i])))
  }

  /** reveal_items' loop: one recovered item per received point. */
  method RevealLoop<G, C, I>(w: World<G, C, I>, p: Party<G, I>, unblinded: seq<G>) returns (output: seq<I>)
    requires w.pp.l > 0
    ensures output == Recovered(w, p, unblinded)
  {
    output := [];
    for i := 0 to |unblinded|
      invariant output == Recovered(w, p, unblinded)[..i]
    {
      output := output + [w.recover(Act(w.pp, p.sk8Inv, unblinded[i]))];
    }
  }

  /** The end: rebuild the shrunken list from the received indices, verify and recover. */
  function Finish<G(==), C(==), I>(w: World<G, C, I>, p: Party<G, I>, otherPk: G, other: seq<C>, ddh: DdhProof<C>,
                                   unblinded: seq<C>, ind: seq<nat>): Outcome<seq<I>>
    requires w.pp.l > 0
    requires forall d: int, n: nat :: ExpandAt(w.pp, d, n)
  {
    var points := DecAll(w.pp, other);
    if points.None? || |p.piInv| != |other| || !(forall i :: 0 <= i < |other| ==> p.piInv[i] < |other|) then Panicked
    else
      var shuffled := Shuffled(w, p, points.value);
      if |ind| > |unblinded| || !(forall i :: 0 <= i < |ind| ==> ind[i] < |shuffled|) then Panicked
      else
        var decoded := DecAll(w.pp, unblinded[..|ind|]);
        if decoded.None? then Panicked
        else if DdhVerify(w.pp, otherPk, decoded.value, Gather(shuffled, ind), unblinded,
          Gather(EncAll(w.pp, shuffled), ind), ddh) != Accept
        then Panicked
        else Value(Recovered(w, p, decoded.value))
  }

  /** The message of round r (1 to 4), given the messages received in earlier rounds. */
  function Outgoing<G(==), C(==), I>(w: World<G, C, I>, p: Party<G, I>, r: nat,
                                     inbox: seq<Message<G, C>>): Outcome<Message<G, C>>
    requires w.pp.l > 2 && 1 <= r <= 4 && |inbox| >= r - 1 && InboxOk(inbox)
    requires forall d: int, n: nat :: ExpandAt(w.pp, d, n)
  {
    if r == 1 then Value(Round1(Sigma(w.pp, p.pk, EncAll(w.pp, Gen(w, p)))))
    else if r == 2 then Value(Round2(p.pk, EncAll(w.pp, Gen(w, p))))
    else if r == 3 then Respond3(w, p, inbox[0].sigma, inbox[1].pk, inbox[1].points)
    else Respond4(w, p, inbox[1].pk, inbox[1].points, inbox[2].shuffle, inbox[2].shuffled)
  }

  predicate RightKind<G, C>(m: Message<G, C>, r: nat) {
    match m
    case Round1(_) => r == 1
    case Round2(_, _) => r == 2
    case Round3(_, _) => r == 3
    case Round4(_, _, _) => r == 4
  }

  predicate InboxOk<G, C>(inbox: seq<Message<G, C>>) {
    |inbox| <= 4 && forall i :: 0 <= i < |inbox| ==> RightKind(inbox[i], i + 1)
  }

  function Output<G(==), C(==), I>(w: World<G, C, I>, p: Party<G, I>, inbox: seq<Message<G, C>>): Outcome<seq<I>>
    requires w.pp.l > 2 && |inbox| == 4 && InboxOk(inbox)
    requires forall d: int, n: nat :: ExpandAt(w.pp, d, n)
  {
    Finish(w, p, inbox[1].pk, inbox[1].points, inbox[3].ddh, inbox[3].unblinded, inbox[3].ind)
  }

  // ---------- two parties on two queues ----------

  datatype Status<I> = Running | Returned(result: Option<seq<I>>) | Crashed

  /** pc counts the eight sends and receives; the server sends first in each round. */
  datatype Local<G, C, I> = Local(pc: nat, inbox: seq<Message<G, C>>, status: Status<I>)

  datatype Net<G, C, I> = Net(server: Local<G, C, I>, client: Local<G, C, I>,
                              toServer: seq<Message<G, C>>, toClient: seq<Message<G, C>>)

  predicate LocalOk<G, C, I>(s: Local<G, C, I>, server: bool) {
    s.status == Running ==>
      s.pc <= 8 && InboxOk(s.inbox) && |s.inbox| == (if server then s.pc / 2 else (s.pc + 1) / 2)
  }

  /** A party's move: its new state, the rest of its queue and what it sends. */
  datatype Move<G, C, I> = Move(state: Local<G, C, I>, queue: seq<Message<G, C>>, sent: seq<Message<G, C>>)

  /** After the fourth round: compute the output. */
  function Finishing<G(==), C(==), I>(w: World<G, C, I>, p: Party<G, I>, s: Local<G, C, I>,
                                      queue: seq<Message<G, C>>): (r: Move<G, C, I>)
    requires w.pp.l > 2 && |s.inbox| == 4 && InboxOk(s.inbox)
    requires forall d: int, n: nat :: ExpandAt(w.pp, d, n)
    ensures r.state.status != Running
  {
    match Output(w, p, s.inbox)
    case Value(out) => Move(s.(status := Returned(Some(out))), queue, [])
    case failed => Stopping(s, queue, failed)
  }

  /** Send the message of the round. */
  function Sending<G(==), C(==), I>(w: World<G, C, I>, p: Party<G, I>, s: Local<G, C, I>,
                                    queue: seq<Message<G, C>>): (r: Move<G, C, I>)
    requires w.pp.l > 2 && s.pc < 8 && |s.inbox| >= s.pc / 2 && InboxOk(s.inbox)
    requires forall d: int, n: nat :: ExpandAt(w.pp, d, n)
    ensures r.state.status == Running ==> r.state == s.(pc := s.pc + 1)
  {
    match Outgoing(w, p, s.pc / 2 + 1, s.inbox)
    case Value(m) => Move(s.(pc := s.pc + 1), queue, [m])
    case failed => Stopping(s, queue, failed)
  }

  /** Read the message of the round, or give up on one of the wrong kind. */
  function Receiving<G, C, I>(s: Local<G, C, I>, queue: seq<Message<G, C>>): (r: Move<G, C, I>)
    requires s.pc < 8 && |s.inbox| == s.pc / 2 && InboxOk(s.inbox) && queue != []
    ensures r.state.status == Running ==>
      r.state.pc == s.pc + 1 && |r.state.inbox| == |s.inbox| + 1 && InboxOk(r.state.inbox)
  {
    if RightKind(queue[0], s.pc / 2 + 1)
    then Move(s.(pc := s.pc + 1, inbox := s.inbox + [queue[0]]), queue[1..], [])
    else Move(s.(status := Returned(None)), queue[1..], [])
  }

  /** A failed check ends the run: an early return of None or a panic. */
  function Stopping<G, C, I, T>(s: Local<G, C, I>, queue: seq<Message<G, C>>, o: Outcome<T>): (r: Move<G, C, I>)
    requires !o.Value?
    ensures r.state.status != Running
  {
    if o.Aborted? then Move(s.(status := Returned(None)), queue, []) else Move(s.(status := Crashed), queue, [])
  }

  /** One atomic step of one party. None when it has stopped or waits on an empty queue. The
      client computes its message of a round, with the checks that takes, before it reads the
      partner's. */
  function LocalStep<G(==), C(==), I>(w: World<G, C, I>, p: Party<G, I>, s: Local<G, C, I>, queue: seq<Message<G, C>>):
      (r: Option<Move<G, C, I>>)
    requires w.pp.l > 2 && LocalOk(s, p.server)
    requires forall d: int, n: nat :: ExpandAt(w.pp, d, n)
    ensures r.Some? ==> LocalOk(r.value.state, p.server)
  {
    if s.status != Running then None
    else if s.pc == 8 then Some(Finishing(w, p, s, queue))
    else if (s.pc % 2 == 0) == p.server then Some(Sending(w, p, s, queue))
    else
      var next := Outgoing(w, p, s.pc / 2 + 1, s.inbox);
      if !p.server && !next.Value? then Some(Stopping(s, queue, next))
      else if queue == [] then None
      else Some(Receiving(s, queue))
  }

  predicate NetOk<G, C, I>(net: Net<G, C, I>) {
    LocalOk(net.server, true) && LocalOk(net.client, false)
  }

  /** The scheduler picks a party; a party that cannot move leaves the net as it is. */
  function Step<G(==), C(==), I>(w: World<G, C, I>, s: Party<G, I>, c: Party<G, I>, net: Net<G, C, I>,
                                 pickServer: bool): (r: Net<G, C, I>)
    requires w.pp.l > 2 && NetOk(net) && s.server && !c.server
    requires forall d: int, n: nat :: ExpandAt(w.pp, d, n)
    ensures NetOk(r)
  {
    if pickServer then
      match LocalStep(w, s, net.server, net.toServer)
      case None => net
      case Some(Move(l, q, out)) => net.(server := l, toServer := q, toClient := net.toClient + out)
    else
      match LocalStep(w, c, net.client, net.toClient)
      case None => net
      case Some(Move(l, q, out)) => net.(client := l, toClient := q, toServer := net.toServer + out)
  }

  const INITIAL_PC: nat := 0

  function Start<G, C, I>(): (r: Net<G, C, I>)
    ensures NetOk(r)
  {
    Net(Local(INITIAL_PC, [], Running), Local(INITIAL_PC, [], Running), [], [])
  }

  function Run<G(==), C(==), I>(w: World<G, C, I>, s: Party<G, I>, c: Party<G, I>,
                                schedule: seq<bool>): (r: Net<G, C, I>)
    requires w.pp.l > 2 && s.server && !c.server
    requires forall d: int, n: nat :: ExpandAt(w.pp, d, n)
    ensures NetOk(r)
  {
    if schedule == [] then Start()
    else Step(w, s, c, Run(w, s, c, schedule[..|schedule| - 1]), schedule[|schedule| - 1])
  }
}
