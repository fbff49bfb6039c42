/** One party of the two-sided protocol (src/twosided.rs) against a partner that may send
    anything, at any time: what it answers, when it stops, and what it returns. */
module AnyPartner {
  import opened Wrappers
  import opened Arith
  import opened Groups
  import opened Folds
  import opened ShuffleArgument
  import opened AdaptedShuffle
  import opened BatchSoundness
  import opened Cofactor
  import opened ShuffleExtraction
  import opened ShuffleVerdicts
  import opened ShuffleWitness
  import opened TwoSided

  // ---------- a party alone ----------

  /** The partner's next message arrives, or the party makes a move if it can. */
  datatype Event<G, C> = Deliver(m: Message<G, C>) | Turn

  /** A party with its queue, all messages it has read and all it has sent. */
  datatype Solo<G, C, I> = Solo(state: Local<G, C, I>, queue: seq<Message<G, C>>, read: seq<Message<G, C>>,
                                sent: seq<Message<G, C>>)

  lemma QueueShrinks<G, C, I>(w: World<G, C, I>, p: Party<G, I>, s: Local<G, C, I>, queue: seq<Message<G, C>>)
    requires w.pp.l > 2 && LocalOk(s, p.server)
    requires forall d: int, n: nat :: ExpandAt(w.pp, d, n)
    requires LocalStep(w, p, s, queue).Some?
    ensures var q := LocalStep(w, p, s, queue).value.queue; q == queue || (queue != [] && q == queue[1..])
  {
    hide Outgoing, Output;
  }

  function SoloStep<G(==), C(==), I>(w: World<G, C, I>, p: Party<G, I>, x: Solo<G, C, I>,
                                     event: Event<G, C>): (r: Solo<G, C, I>)
    requires w.pp.l > 2 && LocalOk(x.state, p.server)
    requires forall d: int, n: nat :: ExpandAt(w.pp, d, n)
    ensures LocalOk(r.state, p.server)
  {
    match event
    case Deliver(m) => x.(queue := x.queue + [m])
    case Turn =>
      var move := LocalStep(w, p, x.state, x.queue);
      if move.None? then x
      else
        QueueShrinks(w, p, x.state, x.queue);
        var taken := |x.queue| - |move.value.queue|;
        Solo(move.value.state, move.value.queue, x.read + x.queue[..taken], x.sent + move.value.sent)
  }

  function SoloRun<G(==), C(==), I>(w: World<G, C, I>, p: Party<G, I>, events: seq<Event<G, C>>): (r: Solo<G, C, I>)
    requires w.pp.l > 2
    requires forall d: int, n: nat :: ExpandAt(w.pp, d, n)
    ensures LocalOk(r.state, p.server)
  {
    if events == [] then Solo(Local(INITIAL_PC, [], Running), [], [], [])
    else SoloStep(w, p, SoloRun(w, p, events[..|events| - 1]), events[|events| - 1])
  }

  // ---------- what the checks say ----------

  ghost predicate AllDecode<G, C>(pp: Params<G, C>, s: seq<C>) {
    forall i :: 0 <= i < |s| ==> pp.dec(s[i]).Some?
  }

  ghost function Points<G, C>(pp: Params<G, C>, s: seq<C>): (r: seq<G>)
    requires AllDecode(pp, s)
    ensures |r| == |s| && forall i :: 0 <= i < |s| ==> r[i] == pp.dec(s[i]).value
  {
    seq(|s|, i requires 0 <= i < |s| => pp.dec(s[i]).value)
  }

  lemma {:induction false} DecAllIs<G, C>(pp: Params<G, C>, s: seq<C>)
    ensures DecAll(pp, s).Some? <==> AllDecode(pp, s)
    ensures AllDecode(pp, s) ==> DecAll(pp, s).value == Points(pp, s)
  {
    if s != [] {
      DecAllIs(pp, s[1..]);
      if AllDecode(pp, s) {
        assert AllDecode(pp, s[1..]);
        assert [pp.dec(s[0]).value] + Points(pp, s[1..]) == Points(pp, s);
      }
      if AllDecode(pp, s[1..]) && pp.dec(s[0]).Some? {
        assert forall i :: 0 < i < |s| ==> s[i] == s[1..][i - 1];
      }
    }
  }

  /** The digest of round 1 is the hash of the key and the points of round 2. */
  ghost predicate DigestMatches<G, C, I>(w: World<G, C, I>, read: seq<Message<G, C>>)
    requires |read| >= 2 && InboxOk(read)
  {
    read[0].sigma == w.pp.hash([PointBytes(w.pp.enc(read[1].pk))] + PointChunks(read[1].points))
  }

  /** What it takes to answer with round 3. */
  ghost predicate MayShuffle<G, C, I>(w: World<G, C, I>, p: Party<G, I>, read: seq<Message<G, C>>)
    requires |read| >= 2 && InboxOk(read)
  {
    AllDecode(w.pp, read[1].points) && DigestMatches(w, read) && ShuffleFits(w, p, |read[1].points|)
  }

  /** What makes round 3 end the run without a result. */
  ghost predicate DigestRefused<G, C, I>(w: World<G, C, I>, read: seq<Message<G, C>>)
    requires |read| >= 2 && InboxOk(read)
  {
    AllDecode(w.pp, read[1].points) && !DigestMatches(w, read)
  }

  /** The partner's points multiplied by the secret key, in the order of the inverse
      permutation, with the proof for them. */
  ghost predicate IsShuffle<G, C, I>(w: World<G, C, I>, p: Party<G, I>, read: seq<Message<G, C>>, m: Message<G, C>)
    requires w.pp.l > 2 && |read| >= 2 && InboxOk(read) && MayShuffle(w, p, read)
    requires forall d: int, n: nat :: ExpandAt(w.pp, d, n)
  {
    var points := Points(w.pp, read[1].points);
    && m.Round3? && |m.shuffled| == |points|
    && (forall i :: 0 <= i < |points| ==> m.shuffled[i] == w.pp.enc(Act(w.pp, p.sk, points[p.piInv[i]])))
    && m.shuffle == ProveAdapted(w.pp, p.pk, p.hint, points, read[1].points, m.shuffled, p.sk, p.pi)
  }

  /** The verdict on the partner's shuffle of one's own points. */
  ghost function ShuffleVerdict<G, C, I>(w: World<G, C, I>, p: Party<G, I>, read: seq<Message<G, C>>): Verdict
    requires w.pp.l > 2 && |read| >= 3 && InboxOk(read) && AllDecode(w.pp, read[2].shuffled)
    requires forall d: int, n: nat :: ExpandAt(w.pp, d, n)
  {
    VerifyAdapted(w.pp, read[1].pk, Gen(w, p), Points(w.pp, read[2].shuffled), EncAll(w.pp, Gen(w, p)),
                  read[2].shuffled, read[2].shuffle, p.a1, p.a2)
  }

  /** What it takes to answer with round 4. */
  ghost predicate MayUnblind<G, C, I>(w: World<G, C, I>, p: Party<G, I>, read: seq<Message<G, C>>)
    requires w.pp.l > 2 && |read| >= 3 && InboxOk(read)
    requires forall d: int, n: nat :: ExpandAt(w.pp, d, n)
  {
    AllDecode(w.pp, read[2].shuffled) && ShuffleVerdict(w, p, read) == Accept && |read[2].shuffled| >= |p.input|
  }

  /** What makes round 4 end the run without a result. */
  ghost predicate ShuffleRefused<G, C, I>(w: World<G, C, I>, p: Party<G, I>, read: seq<Message<G, C>>)
    requires w.pp.l > 2 && |read| >= 3 && InboxOk(read)
    requires forall d: int, n: nat :: ExpandAt(w.pp, d, n)
  {
    AllDecode(w.pp, read[2].shuffled) && ShuffleVerdict(w, p, read) == Reject
  }

  /** The i-th shuffled point without one's own key. */
  ghost function UnblindedAt<G, C, I>(w: World<G, C, I>, p: Party<G, I>, read: seq<Message<G, C>>, i: nat): G
    requires w.pp.l > 2 && |read| >= 3 && InboxOk(read) && AllDecode(w.pp, read[2].shuffled) && i < |read[2].shuffled|
  {
    Act(w.pp, p.skInv, Points(w.pp, read[2].shuffled)[i])
  }

  /** Exactly the positions whose unblinded point the partner does not have, in increasing
      order, their unblinded points, and the proof for them. */
  ghost predicate IsUnblinding<G, C, I>(w: World<G, C, I>, p: Party<G, I>, read: seq<Message<G, C>>, m: Message<G, C>)
    requires w.pp.l > 2 && |read| >= 3 && InboxOk(read)
    requires forall d: int, n: nat :: ExpandAt(w.pp, d, n)
    requires MayUnblind(w, p, read)
  {
    && m.Round4? && |m.unblinded| == |m.ind|
    && (forall k :: 0 <= k < |m.ind| ==> m.ind[k] < |p.input|)
    && (forall j, k :: 0 <= j < k < |m.ind| ==> m.ind[j] < m.ind[k])
    && (forall i :: 0 <= i < |p.input| ==> (i in m.ind <==> w.pp.enc(UnblindedAt(w, p, read, i)) !in read[1].points))
    && (forall k :: 0 <= k < |m.ind| ==> m.unblinded[k] == w.pp.enc(UnblindedAt(w, p, read, m.ind[k])))
    && m.ddh == DdhProve(w.pp, p.pk, seq(|m.ind|, k requires 0 <= k < |m.ind| => UnblindedAt(w, p, read, m.ind[k])),
                         m.unblinded, Gather(read[2].shuffled, m.ind), p.sk, p.nonce)
  }

  /** What the last round must satisfy before its verdict: indices in range, points that decode. */
  ghost predicate Revealable<G, C, I>(w: World<G, C, I>, p: Party<G, I>, read: seq<Message<G, C>>)
    requires |read| == 4 && InboxOk(read)
  {
    && AllDecode(w.pp, read[1].points) && |p.piInv| == |read[1].points|
    && (forall i :: 0 <= i < |p.piInv| ==> p.piInv[i] < |p.piInv|)
    && |read[3].ind| <= |read[3].unblinded|
    && (forall k :: 0 <= k < |read[3].ind| ==> read[3].ind[k] < |p.piInv|)
    && AllDecode(w.pp, read[3].unblinded[..|read[3].ind|])
  }

  /** The points the partner claims to have unblinded: one's own shuffle at its indices. */
  ghost function ClaimedAt<G, C, I>(w: World<G, C, I>, p: Party<G, I>, read: seq<Message<G, C>>, k: nat): G
    requires w.pp.l > 2 && |read| == 4 && InboxOk(read) && Revealable(w, p, read) && k < |read[3].ind|
  {
    Act(w.pp, p.sk, Points(w.pp, read[1].points)[p.piInv[read[3].ind[k]]])
  }

  ghost predicate UnblindingProven<G, C, I>(w: World<G, C, I>, p: Party<G, I>, read: seq<Message<G, C>>)
    requires w.pp.l > 2 && |read| == 4 && InboxOk(read) && Revealable(w, p, read)
    requires forall d: int, n: nat :: ExpandAt(w.pp, d, n)
  {
    var m := |read[3].ind|;
    var claimed := seq(m, k requires 0 <= k < m => ClaimedAt(w, p, read, k));
    DdhVerify(w.pp, read[1].pk, Points(w.pp, read[3].unblinded[..m]), claimed, read[3].unblinded,
              seq(m, k requires 0 <= k < m => w.pp.enc(claimed[k])), read[3].ddh) == Accept
  }

  /** One recovered item per unblinded point. */
  ghost predicate IsReveal<G, C, I>(w: World<G, C, I>, p: Party<G, I>, read: seq<Message<G, C>>, out: seq<I>)
    requires w.pp.l > 2 && |read| == 4 && InboxOk(read) && Revealable(w, p, read)
  {
    var points := Points(w.pp, read[3].unblinded[..|read[3].ind|]);
    |out| == |points| && forall k :: 0 <= k < |out| ==> out[k] == w.recover(Act(w.pp, p.sk8Inv, points[k]))
  }

  // ---------- the three answers ----------

  lemma AnswerThree<G(!new), C, I>(w: World<G, C, I>, p: Party<G, I>, read: seq<Message<G, C>>)
    requires w.pp.l > 2 && |read| >= 2 && InboxOk(read)
    requires forall d: int, n: nat :: ExpandAt(w.pp, d, n)
    ensures var o := Outgoing(w, p, 3, read);
      && (o.Value? <==> MayShuffle(w, p, read)) && (o.Aborted? <==> DigestRefused(w, read))
      && (o.Value? ==> IsShuffle(w, p, read, o.value))
  {
    hide ProveAdapted, Act, ShuffleFits;
    DecAllIs(w.pp, read[1].points);
    if AllDecode(w.pp, read[1].points) && ShuffleFits(w, p, |read[1].points|) {
      FitsInRange(w, p, |read[1].points|);
    }
  }

  lemma FitsInRange<G, C, I>(w: World<G, C, I>, p: Party<G, I>, n: nat)
    requires ShuffleFits(w, p, n)
    ensures |p.piInv| == n && forall i :: 0 <= i < n ==> p.piInv[i] < n
  {
  }

  lemma {:induction false} UnmatchedAre<G, C, I>(w: World<G, C, I>, p: Party<G, I>, shuffled: seq<G>, other: seq<C>,
                                                 n: nat)
    requires w.pp.l > 0 && n <= |shuffled|
    ensures var ind := Unmatched(w, p, shuffled, other, n);
      && (forall k :: 0 <= k < |ind| ==> ind[k] < n) && (forall j, k :: 0 <= j < k < |ind| ==> ind[j] < ind[k])
      && (forall i :: 0 <= i < n ==> (i in ind <==> w.pp.enc(Act(w.pp, p.skInv, shuffled[i])) !in other))
  {
    hide Act;
    if n > 0 { UnmatchedAre(w, p, shuffled, other, n - 1); }
  }

  lemma AnswerFour<G(!new), C, I>(w: World<G, C, I>, p: Party<G, I>, read: seq<Message<G, C>>)
    requires w.pp.l > 2 && |read| >= 3 && InboxOk(read)
    requires forall d: int, n: nat :: ExpandAt(w.pp, d, n)
    ensures var o := Outgoing(w, p, 4, read);
      && (o.Value? <==> MayUnblind(w, p, read)) && (o.Aborted? <==> ShuffleRefused(w, p, read))
      && (o.Value? ==> IsUnblinding(w, p, read, o.value))
  {
    hide VerifyAdapted, DdhProve, Act, Unmatched;
    DecAllIs(w.pp, read[2].shuffled);
    if MayUnblind(w, p, read) {
      var points := Points(w.pp, read[2].shuffled);
      UnmatchedAre(w, p, points, read[1].points, |p.input|);
      var ind := Unmatched(w, p, points, read[1].points, |p.input|);
      assert Unblinded(w, p, points, ind) == seq(|ind|, k requires 0 <= k < |ind| => UnblindedAt(w, p, read, ind[k]));
    }
  }

  /** What a proof accepted under three pairs of weights satisfies. */
  ghost predicate IsForked<G, C>(pp: Params<G, C>, pk: G, g: seq<G>, h: seq<G>, gs: seq<C>, hs: seq<C>,
                                 proof: AdaptedProof<C>, answers: seq<Answer>)
    requires pp.l > 2 && 0 < |g| == |h| == |pp.f|
  {
    var d, n, G_ := Derive(pp, pk, |g|, gs, hs, proof), |g|, pp.g;
    && d.Some? && pp.dec(proof.cPi).Some? && |proof.x| == |d.value.z| == n && n <= |proof.psi.f|
      && n <= |proof.psi.fDelta|
    && d.value.zRho == Rho(d.value.z, d.value.delta)
    && Correct(pp, d.value.zRho, d.value.cRho, Branch(d.value.x, d.value.kcD, d.value.kcDelta, d.value.kcA, answers),
               Answer(d.value.e, proof.psi.f[..n], proof.psi.fDelta[..n], proof.psi.z, proof.psi.zDelta))
    && Clear(G_, d.value.cRho) == Clear(G_, G_.add(Smul(G_, d.value.delta, pp.dec(proof.cPi).value), d.value.cZ))
    && Clear(G_, Smul(G_, proof.v, pp.base)) == Clear(G_, G_.add(d.value.gU, Smul(G_, d.value.delta, pk)))
    && Opens(pp, G_.add(Smul(G_, proof.v, d.value.cZ), G_.add(Smul(G_, d.value.delta, d.value.cD), d.value.cU)),
             ScaleVec(d.value.delta, proof.x), proof.v2)
    && Clear(G_, d.value.gD) == Msm(G_, proof.x + NegVec(d.value.z), ClearAll(G_, g) + ClearAll(G_, h))
  }

  /** A fourth message means a proof: where the party sends one with each of three choices of
      its weights, the received round 3 answers the challenges it derives, its key equation and
      third equation hold up to points of order dividing 8, and so does its equation of the
      points. */
  lemma FourthMeansFork<G(!new), C, I>(w: World<G, C, I>, p: Party<G, I>, read: seq<Message<G, C>>, b1: int, b2: int,
                                       answers: seq<Answer>)
    requires ValidParams(w.pp) && AllCofactor(w.pp) && |read| >= 3 && InboxOk(read)
    requires 0 < |p.input| == |read[2].shuffled| == |w.pp.f| && !Cong(w.pp.l, p.a1, b1) && !Cong(w.pp.l, p.a2, b2)
    requires Outgoing(w, p, 4, read).Value? && Outgoing(w, p.(a1 := b1), 4, read).Value?
    requires Outgoing(w, p.(a2 := b2), 4, read).Value?
    ensures AllDecode(w.pp, read[2].shuffled)
    ensures IsForked(w.pp, read[1].pk, Gen(w, p), Points(w.pp, read[2].shuffled), EncAll(w.pp, Gen(w, p)),
                     read[2].shuffled, read[2].shuffle, answers)
  {
    hide Outgoing, VerifyAdapted, Derive, Correct, Opens, Clear, Smul, Msm, IsPrime, Cong, CofactorAt, Act;
    AnswerFour(w, p, read);
    AnswerFour(w, p.(a1 := b1), read);
    AnswerFour(w, p.(a2 := b2), read);
    VerdictIsFork(w.pp, read[1].pk, Gen(w, p), Points(w.pp, read[2].shuffled), EncAll(w.pp, Gen(w, p)),
                  read[2].shuffled, read[2].shuffle, p.a1, p.a2, b1, b2, answers);
  }

  lemma AnswerEnd<G(!new), C, I>(w: World<G, C, I>, p: Party<G, I>, read: seq<Message<G, C>>)
    requires w.pp.l > 2 && |read| == 4 && InboxOk(read)
    requires forall d: int, n: nat :: ExpandAt(w.pp, d, n)
    ensures var o := Output(w, p, read);
      && !o.Aborted? && (o.Value? <==> Revealable(w, p, read) && UnblindingProven(w, p, read))
      && (o.Value? ==> IsReveal(w, p, read, o.value))
  {
    hide DdhVerify, Act;
    DecAllIs(w.pp, read[1].points);
    if |read[3].ind| <= |read[3].unblinded| { DecAllIs(w.pp, read[3].unblinded[..|read[3].ind|]); }
    if Revealable(w, p, read) {
      var m := |read[3].ind|;
      var claimed := seq(m, k requires 0 <= k < m => ClaimedAt(w, p, read, k));
      var shuffled := Shuffled(w, p, Points(w.pp, read[1].points));
      assert Gather(shuffled, read[3].ind) == claimed;
      assert Gather(EncAll(w.pp, shuffled), read[3].ind) == seq(m, k requires 0 <= k < m => w.pp.enc(claimed[k]));
    }
  }

  // ---------- every run ----------

  /** How many messages a party has read and sent after pc of its eight sends and receives. */
  function ReadBy(server: bool, pc: nat): nat {
    if server then pc / 2 else (pc + 1) / 2
  }

  function SentBy(server: bool, pc: nat): nat {
    if server then (pc + 1) / 2 else pc / 2
  }

  /** The r-th message sent is the one the protocol asks for. */
  ghost predicate SentAsAsked<G, C, I>(w: World<G, C, I>, p: Party<G, I>, inbox: seq<Message<G, C>>,
                                       sent: seq<Message<G, C>>)
    requires w.pp.l > 2 && InboxOk(inbox) && |sent| <= |inbox| + 1 && |sent| <= 4
    requires forall d: int, n: nat :: ExpandAt(w.pp, d, n)
  {
    && (|sent| >= 1 ==>
          sent[0] == Round1(w.pp.hash([PointBytes(w.pp.enc(p.pk))] + PointChunks(EncAll(w.pp, Gen(w, p))))))
    && (|sent| >= 2 ==> sent[1] == Round2(p.pk, EncAll(w.pp, Gen(w, p))))
    && (|sent| >= 3 ==> MayShuffle(w, p, inbox) && IsShuffle(w, p, inbox, sent[2]))
    && (|sent| >= 4 ==> MayUnblind(w, p, inbox) && IsUnblinding(w, p, inbox, sent[3]))
  }

  /** The last message read is of the wrong kind for its round. */
  ghost predicate WrongKind<G, C, I>(x: Solo<G, C, I>) {
    var k := |x.state.inbox|;
    k < 4 && |x.read| == k + 1 && x.read[..k] == x.state.inbox && !RightKind(x.read[k], k + 1)
  }

  /** Everything a run against any partner keeps. The third message is sent only after the
      digest of the first round has been found to match, the fourth only after the received
      shuffle proof has been accepted, and a party returns items only after the proof of the
      last round has been accepted. It returns without items exactly where one of the first two
      checks fails or a message is of the wrong kind, and crashes where a point does not decode,
      an index is out of range or the last proof is not accepted. */
  ghost predicate AsSpecified<G, C, I>(w: World<G, C, I>, p: Party<G, I>, x: Solo<G, C, I>)
    requires w.pp.l > 2
    requires forall d: int, n: nat :: ExpandAt(w.pp, d, n)
  {
    var s, inbox := x.state, x.state.inbox;
    && s.pc <= 8 && InboxOk(inbox) && |inbox| == ReadBy(p.server, s.pc) && |x.sent| == SentBy(p.server, s.pc)
    && SentAsAsked(w, p, inbox, x.sent)
    && (s.pc >= 5 ==> MayShuffle(w, p, inbox)) && (s.pc >= 7 ==> MayUnblind(w, p, inbox))
    && (x.read == inbox || (s.status == Returned(None) && WrongKind(x)))
    && match s.status
       case Running => true
       case Returned(Some(out)) =>
         s.pc == 8 && x.read == inbox && Revealable(w, p, inbox) && UnblindingProven(w, p, inbox)
           && IsReveal(w, p, inbox, out)
       case Returned(None) =>
         WrongKind(x) || (s.pc == 4 && DigestRefused(w, inbox)) || (s.pc == 6 && ShuffleRefused(w, p, inbox))
       case Crashed =>
         || (s.pc == 4 && !MayShuffle(w, p, inbox) && !DigestRefused(w, inbox))
         || (s.pc == 6 && !MayUnblind(w, p, inbox) && !ShuffleRefused(w, p, inbox))
         || (s.pc == 8 && !(Revealable(w, p, inbox) && UnblindingProven(w, p, inbox)))
  }

  /** One more message read does not change what the earlier ones say. */
  lemma MoreRead<G(!new), C, I>(w: World<G, C, I>, p: Party<G, I>, inbox: seq<Message<G, C>>, m: Message<G, C>)
    requires w.pp.l > 2 && InboxOk(inbox) && InboxOk(inbox + [m])
    requires forall d: int, n: nat :: ExpandAt(w.pp, d, n)
    ensures |inbox| >= 2 ==> (MayShuffle(w, p, inbox) <==> MayShuffle(w, p, inbox + [m]))
    ensures |inbox| >= 3 ==> (MayUnblind(w, p, inbox) <==> MayUnblind(w, p, inbox + [m]))
    ensures |inbox| >= 2 && MayShuffle(w, p, inbox) ==>
      forall o :: IsShuffle(w, p, inbox, o) ==> IsShuffle(w, p, inbox + [m], o)
    ensures |inbox| >= 3 && MayUnblind(w, p, inbox) ==>
      forall o :: IsUnblinding(w, p, inbox, o) ==> IsUnblinding(w, p, inbox + [m], o)
  {
    hide VerifyAdapted, DdhProve, ProveAdapted, Smul;
    var all := inbox + [m];
    assert |inbox| >= 3 ==> all[2] == inbox[2] && all[1] == inbox[1];
    if |inbox| >= 3 && MayUnblind(w, p, inbox) {
      forall o | IsUnblinding(w, p, inbox, o) ensures IsUnblinding(w, p, all, o) {
        assert seq(|o.ind|, k requires 0 <= k < |o.ind| => UnblindedAt(w, p, inbox, o.ind[k]))
            == seq(|o.ind|, k requires 0 <= k < |o.ind| => UnblindedAt(w, p, all, o.ind[k]));
      }
    }
  }

  lemma SentKept<G(!new), C, I>(w: World<G, C, I>, p: Party<G, I>, inbox: seq<Message<G, C>>, m: Message<G, C>,
                                sent: seq<Message<G, C>>)
    requires w.pp.l > 2 && InboxOk(inbox) && InboxOk(inbox + [m]) && |sent| <= |inbox| + 1 && |sent| <= 4
    requires forall d: int, n: nat :: ExpandAt(w.pp, d, n)
    requires SentAsAsked(w, p, inbox, sent)
    ensures SentAsAsked(w, p, inbox + [m], sent)
  {
    hide MayShuffle, MayUnblind, IsShuffle, IsUnblinding;
    MoreRead(w, p, inbox, m);
  }

  /** Sending. */
  lemma SendKeeps<G(!new), C, I>(w: World<G, C, I>, p: Party<G, I>, x: Solo<G, C, I>)
    requires w.pp.l > 2 && LocalOk(x.state, p.server) && x.state.status == Running && x.state.pc < 8
    requires (x.state.pc % 2 == 0) == p.server
    requires forall d: int, n: nat :: ExpandAt(w.pp, d, n)
    requires AsSpecified(w, p, x)
    ensures AsSpecified(w, p, SoloStep(w, p, x, Turn))
  {
    hide AsSpecified, Outgoing, Output, SoloStep;
    SendMoves(w, p, x);
    if Outgoing(w, p, x.state.pc / 2 + 1, x.state.inbox).Value? { SendAsked(w, p, x); } else { StopKeeps(w, p, x); }
  }

  lemma SendMoves<G(!new), C, I>(w: World<G, C, I>, p: Party<G, I>, x: Solo<G, C, I>)
    requires w.pp.l > 2 && LocalOk(x.state, p.server) && x.state.status == Running && x.state.pc < 8
    requires (x.state.pc % 2 == 0) == p.server
    requires forall d: int, n: nat :: ExpandAt(w.pp, d, n)
    ensures var y, s := SoloStep(w, p, x, Turn), x.state; var next := Outgoing(w, p, s.pc / 2 + 1, s.inbox);
      y == if next.Value? then x.(state := s.(pc := s.pc + 1), sent := x.sent + [next.value])
           else x.(state := s.(status := if next.Aborted? then Returned(None) else Crashed))
  {
    hide Outgoing, Output;
    assert x.read + x.queue[..0] == x.read && x.sent + [] == x.sent;
  }

  lemma SendAsked<G(!new), C, I>(w: World<G, C, I>, p: Party<G, I>, x: Solo<G, C, I>)
    requires w.pp.l > 2 && LocalOk(x.state, p.server) && x.state.status == Running && x.state.pc < 8
    requires (x.state.pc % 2 == 0) == p.server
    requires forall d: int, n: nat :: ExpandAt(w.pp, d, n)
    requires AsSpecified(w, p, x) && Outgoing(w, p, x.state.pc / 2 + 1, x.state.inbox).Value?
    ensures AsSpecified(w, p, x.(state := x.state.(pc := x.state.pc + 1),
                                 sent := x.sent + [Outgoing(w, p, x.state.pc / 2 + 1, x.state.inbox).value]))
  {
    hide Outgoing, MayShuffle, MayUnblind, IsShuffle, IsUnblinding, DigestRefused, ShuffleRefused;
    var inbox, r := x.state.inbox, x.state.pc / 2 + 1;
    FirstTwoAnswers(w, p, inbox);
    if r >= 3 { AnswerThree(w, p, inbox); }
    if r == 4 { AnswerFour(w, p, inbox); }
  }

  lemma FirstTwoAnswers<G, C, I>(w: World<G, C, I>, p: Party<G, I>, inbox: seq<Message<G, C>>)
    requires w.pp.l > 2 && InboxOk(inbox)
    requires forall d: int, n: nat :: ExpandAt(w.pp, d, n)
    ensures Outgoing(w, p, 1, inbox)
         == Value(Round1(w.pp.hash([PointBytes(w.pp.enc(p.pk))] + PointChunks(EncAll(w.pp, Gen(w, p))))))
    ensures |inbox| >= 1 ==> Outgoing(w, p, 2, inbox) == Value(Round2(p.pk, EncAll(w.pp, Gen(w, p))))
  {
    hide Respond3, Respond4;
  }

  /** Reading, or stopping on a message of the wrong kind; the client stops before it reads when
      it cannot answer. */
  lemma ReadKeeps<G(!new), C, I>(w: World<G, C, I>, p: Party<G, I>, x: Solo<G, C, I>)
    requires w.pp.l > 2 && LocalOk(x.state, p.server) && x.state.status == Running && x.state.pc < 8
    requires (x.state.pc % 2 == 0) != p.server
    requires forall d: int, n: nat :: ExpandAt(w.pp, d, n)
    requires AsSpecified(w, p, x)
    ensures AsSpecified(w, p, SoloStep(w, p, x, Turn))
  {
    hide AsSpecified, Outgoing, Output, SoloStep;
    var s := x.state;
    ReadMoves(w, p, x);
    if !p.server && !Outgoing(w, p, s.pc / 2 + 1, s.inbox).Value? {
      StopKeeps(w, p, x);
    } else if x.queue != [] {
      if RightKind(x.queue[0], s.pc / 2 + 1) { ReadRight(w, p, x); } else { ReadWrong(w, p, x); }
    }
  }

  lemma ReadRight<G(!new), C, I>(w: World<G, C, I>, p: Party<G, I>, x: Solo<G, C, I>)
    requires w.pp.l > 2 && LocalOk(x.state, p.server) && x.state.status == Running && x.state.pc < 8
    requires (x.state.pc % 2 == 0) != p.server && x.queue != [] && RightKind(x.queue[0], x.state.pc / 2 + 1)
    requires forall d: int, n: nat :: ExpandAt(w.pp, d, n)
    requires AsSpecified(w, p, x) && (p.server || Outgoing(w, p, x.state.pc / 2 + 1, x.state.inbox).Value?)
    ensures AsSpecified(w, p, Solo(Local(x.state.pc + 1, x.state.inbox + [x.queue[0]], Running), x.queue[1..],
                                   x.read + [x.queue[0]], x.sent))
  {
    hide Outgoing, MayShuffle, MayUnblind, IsShuffle, IsUnblinding, DigestRefused, ShuffleRefused, SentAsAsked;
    var inbox, r := x.state.inbox, x.state.pc / 2 + 1;
    assert InboxOk(inbox + [x.queue[0]]);
    if r >= 3 { AnswerThree(w, p, inbox); }
    if r == 4 { AnswerFour(w, p, inbox); }
    MoreRead(w, p, inbox, x.queue[0]);
    SentKept(w, p, inbox, x.queue[0], x.sent);
  }

  lemma ReadWrong<G(!new), C, I>(w: World<G, C, I>, p: Party<G, I>, x: Solo<G, C, I>)
    requires w.pp.l > 2 && LocalOk(x.state, p.server) && x.state.status == Running && x.state.pc < 8
    requires (x.state.pc % 2 == 0) != p.server && x.queue != [] && !RightKind(x.queue[0], x.state.pc / 2 + 1)
    requires forall d: int, n: nat :: ExpandAt(w.pp, d, n)
    requires AsSpecified(w, p, x)
    ensures AsSpecified(w, p, Solo(x.state.(status := Returned(None)), x.queue[1..], x.read + [x.queue[0]], x.sent))
  {
    hide MayShuffle, MayUnblind, IsShuffle, IsUnblinding, DigestRefused, ShuffleRefused, SentAsAsked;
    assert (x.read + [x.queue[0]])[..|x.state.inbox|] == x.state.inbox;
  }

  /** A message that cannot be computed stops the party. */
  lemma StopKeeps<G(!new), C, I>(w: World<G, C, I>, p: Party<G, I>, x: Solo<G, C, I>)
    requires w.pp.l > 2 && LocalOk(x.state, p.server) && x.state.status == Running && x.state.pc < 8
    requires |x.state.inbox| >= x.state.pc / 2
    requires forall d: int, n: nat :: ExpandAt(w.pp, d, n)
    requires AsSpecified(w, p, x) && !Outgoing(w, p, x.state.pc / 2 + 1, x.state.inbox).Value?
    ensures var next := Outgoing(w, p, x.state.pc / 2 + 1, x.state.inbox);
      AsSpecified(w, p, x.(state := x.state.(status := if next.Aborted? then Returned(None) else Crashed)))
  {
    hide Outgoing, MayShuffle, MayUnblind, IsShuffle, IsUnblinding, DigestRefused, ShuffleRefused, SentAsAsked;
    var inbox, r := x.state.inbox, x.state.pc / 2 + 1;
    FirstTwoAnswers(w, p, inbox);
    if r >= 3 { AnswerThree(w, p, inbox); }
    if r == 4 { AnswerFour(w, p, inbox); }
  }

  lemma ReadMoves<G(!new), C, I>(w: World<G, C, I>, p: Party<G, I>, x: Solo<G, C, I>)
    requires w.pp.l > 2 && LocalOk(x.state, p.server) && x.state.status == Running && x.state.pc < 8
    requires (x.state.pc % 2 == 0) != p.server
    requires forall d: int, n: nat :: ExpandAt(w.pp, d, n)
    ensures var y, s := SoloStep(w, p, x, Turn), x.state; var next := Outgoing(w, p, s.pc / 2 + 1, s.inbox);
      var stop := if next.Aborted? then Returned(None) else Crashed;
      y == if !p.server && !next.Value? then x.(state := s.(status := stop))
           else if x.queue == [] then x
           else if RightKind(x.queue[0], s.pc / 2 + 1)
           then Solo(Local(s.pc + 1, s.inbox + [x.queue[0]], Running), x.queue[1..], x.read + [x.queue[0]], x.sent)
           else Solo(s.(status := Returned(None)), x.queue[1..], x.read + [x.queue[0]], x.sent)
  {
    hide Outgoing, Output;
    assert x.read + x.queue[..0] == x.read && x.sent + [] == x.sent;
    if x.queue != [] { assert x.queue[..1] == [x.queue[0]]; }
  }

  /** The end. */
  lemma EndKeeps<G(!new), C, I>(w: World<G, C, I>, p: Party<G, I>, x: Solo<G, C, I>)
    requires w.pp.l > 2 && LocalOk(x.state, p.server) && x.state.status == Running && x.state.pc == 8
    requires forall d: int, n: nat :: ExpandAt(w.pp, d, n)
    requires AsSpecified(w, p, x)
    ensures AsSpecified(w, p, SoloStep(w, p, x, Turn))
  {
    hide Outgoing, Output, MayShuffle, MayUnblind, IsShuffle, IsUnblinding, DigestRefused, ShuffleRefused, SentAsAsked,
      Revealable, UnblindingProven, IsReveal;
    AnswerEnd(w, p, x.state.inbox);
    assert x.read + x.queue[..0] == x.read && x.sent + [] == x.sent;
  }

  /** Whatever the partner sends, and whenever, the run is as specified. */
  lemma {:induction false} EveryRunAsSpecified<G(!new), C, I>(w: World<G, C, I>, p: Party<G, I>,
                                                        events: seq<Event<G, C>>)
    requires w.pp.l > 2
    requires forall d: int, n: nat :: ExpandAt(w.pp, d, n)
    ensures AsSpecified(w, p, SoloRun(w, p, events))
    decreases |events|
  {
    hide MayShuffle, MayUnblind, IsShuffle, IsUnblinding, DigestRefused, ShuffleRefused, SoloStep,
      Revealable, UnblindingProven, IsReveal;
    if events != [] {
      hide AsSpecified;
      var before, last := events[..|events| - 1], events[|events| - 1];
      EveryRunAsSpecified(w, p, before);
      OneEvent(w, p, SoloRun(w, p, before), last);
    }
  }

  lemma OneEvent<G(!new), C, I>(w: World<G, C, I>, p: Party<G, I>, x: Solo<G, C, I>, event: Event<G, C>)
    requires w.pp.l > 2 && LocalOk(x.state, p.server)
    requires forall d: int, n: nat :: ExpandAt(w.pp, d, n)
    requires AsSpecified(w, p, x)
    ensures AsSpecified(w, p, SoloStep(w, p, x, event))
  {
    hide MayShuffle, MayUnblind, IsShuffle, IsUnblinding, DigestRefused, ShuffleRefused, SentAsAsked, Outgoing, Output,
      Revealable, UnblindingProven, IsReveal;
    if event.Turn? && x.state.status == Running {
      hide AsSpecified, SoloStep;
      if x.state.pc == 8 {
        EndKeeps(w, p, x);
      } else if (x.state.pc % 2 == 0) == p.server {
        SendKeeps(w, p, x);
      } else {
        ReadKeeps(w, p, x);
      }
    }
  }

  /** What the partner has sent. */
  function Delivered<G, C>(events: seq<Event<G, C>>): seq<Message<G, C>> {
    if events == [] then []
    else
      var rest, last := Delivered(events[..|events| - 1]), events[|events| - 1];
      if last.Deliver? then rest + [last.m] else rest
  }

  /** Nothing gets lost: what has been read and what waits is what the partner has sent. */
  lemma {:induction false} NothingLost<G(!new), C, I>(w: World<G, C, I>, p: Party<G, I>, events: seq<Event<G, C>>)
    requires w.pp.l > 2
    requires forall d: int, n: nat :: ExpandAt(w.pp, d, n)
    ensures var x := SoloRun(w, p, events); x.read + x.queue == Delivered(events)
    decreases |events|
  {
    hide SoloStep;
    if events != [] {
      var before := events[..|events| - 1];
      NothingLost(w, p, before);
      StepLosesNothing(w, p, SoloRun(w, p, before), events[|events| - 1]);
    }
  }

  lemma StepLosesNothing<G(!new), C, I>(w: World<G, C, I>, p: Party<G, I>, x: Solo<G, C, I>, event: Event<G, C>)
    requires w.pp.l > 2 && LocalOk(x.state, p.server)
    requires forall d: int, n: nat :: ExpandAt(w.pp, d, n)
    ensures var y := SoloStep(w, p, x, event);
      y.read + y.queue == (x.read + x.queue) + (if event.Deliver? then [event.m] else [])
  {
    hide LocalStep;
    if event.Deliver? {
      assert (x.read + x.queue) + [event.m] == x.read + (x.queue + [event.m]);
    } else if LocalStep(w, p, x.state, x.queue).Some? {
      QueueShrinks(w, p, x.state, x.queue);
      Moved(x.read, x.queue, LocalStep(w, p, x.state, x.queue).value.queue);
    }
  }

  lemma Moved<T>(read: seq<T>, queue: seq<T>, rest: seq<T>)
    requires rest == queue || (queue != [] && rest == queue[1..])
    ensures (read + queue[..|queue| - |rest|]) + rest == (read + queue) + []
  {
    assert queue[..|queue| - |rest|] + rest == queue;
  }

  /** A failed check stops the party at its next move, before it sends or reads anything more. */
  lemma RefusalStops<G(!new), C, I>(w: World<G, C, I>, p: Party<G, I>, x: Solo<G, C, I>)
    requires w.pp.l > 2 && LocalOk(x.state, p.server) && x.state.status == Running && x.state.pc < 8
    requires forall d: int, n: nat :: ExpandAt(w.pp, d, n)
    requires AsSpecified(w, p, x)
    ensures var y := SoloStep(w, p, x, Turn);
      && (x.state.pc == 4 && !MayShuffle(w, p, x.state.inbox) ==>
            && y.sent == x.sent && y.read == x.read
            && y.state.status == if DigestRefused(w, x.state.inbox) then Returned(None) else Crashed)
      && (x.state.pc == 6 && !MayUnblind(w, p, x.state.inbox) ==>
            && y.sent == x.sent && y.read == x.read
            && y.state.status == if ShuffleRefused(w, p, x.state.inbox) then Returned(None) else Crashed)
  {
    hide Outgoing, Output, MayShuffle, MayUnblind, IsShuffle, IsUnblinding, DigestRefused, ShuffleRefused, SentAsAsked;
    if x.state.pc == 4 { AnswerThree(w, p, x.state.inbox); }
    if x.state.pc == 6 { AnswerFour(w, p, x.state.inbox); }
    assert x.read + x.queue[..0] == x.read;
  }
}
