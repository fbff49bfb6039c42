/** Batching of conversion checks (swanky-dev/diet-mac-and-cheese/src/backend_multifield.rs):
    conversions wait in one queue per bit width until a check takes them. Each call of the
    conversion check is recorded in a log, with the bucket parameter it was given. */
module ConversionQueue {

  const ParamB: nat := 4
  const BatchSize: nat := 10321
  const ParamBSafe: nat := 5
  const BatchSizeSafe: nat := 1024

  datatype Check<E> = Check(width: nat, b: nat, items: seq<E>)

  type Queues<E> = map<nat, seq<E>>

  datatype State<E> = State(queues: Queues<E>, log: seq<Check<E>>)

  // ---------- the steps as functions ----------

  /** push_elem: an item is appended to an existing queue; a missing queue is created empty. */
  function PushElem<E>(q: Queues<E>, w: nat, e: E): Queues<E> {
    if w in q then q[w := q[w] + [e]] else q[w := []]
  }

  function MaybeCheck<E>(noBatching: bool, s: State<E>, w: nat): State<E>
    requires w in s.queues
  {
    var items := s.queues[w];
    if noBatching then
      State(s.queues[w := []], s.log + [Check(w, ParamBSafe, items)])
    else if |items| >= 2 * BatchSize then
      var split := |items| - BatchSize;
      State(s.queues[w := items[..split]], s.log + [Check(w, ParamB, items[split..])])
    else s
  }

  function Step<E>(noBatching: bool, s: State<E>, w: nat, e: E): State<E> {
    MaybeCheck(noBatching, State(PushElem(s.queues, w, e), s.log), w)
  }

  /** The state after a sequence of conversions. */
  function Run<E>(noBatching: bool, pushes: seq<(nat, E)>): State<E> {
    if pushes == [] then State(map[], [])
    else
      var last := pushes[|pushes| - 1];
      Step(noBatching, Run(noBatching, pushes[..|pushes| - 1]), last.0, last.1)
  }

  /** The final checks of one queue. */
  function FinalChecks<E>(w: nat, items: seq<E>): seq<Check<E>> {
    if |items| < BatchSize then [Check(w, ParamBSafe, items)]
    else if |items| < BatchSize + BatchSizeSafe then [Check(w, ParamB, items)]
    else [Check(w, ParamB, items[..BatchSize]), Check(w, ParamBSafe, items[BatchSize..])]
  }

  function FinalLog<E>(keys: seq<nat>, q: Queues<E>): seq<Check<E>>
    requires forall k <- keys :: k in q
  {
    if keys == [] then [] else FinalLog(keys[..|keys| - 1], q) + FinalChecks(keys[|keys| - 1], q[keys[|keys| - 1]])
  }

  // ---------- the backend ----------

  /** keys lists the widths in the order the map iterates them: increasing. */
  ghost predicate IsKeyOrder<E>(keys: seq<nat>, q: Queues<E>) {
    && (forall i, j :: 0 <= i < j < |keys| ==> keys[i] < keys[j])
    && (forall k :: k in keys <==> k in q)
  }

  ghost predicate BelowLimit<E>(q: Queues<E>) {
    forall w :: w in q ==> |q[w]| < 2 * BatchSize
  }

  class Backend<E> {
    const noBatching: bool
    var queues: Queues<E>
    var keys: seq<nat>
    var log: seq<Check<E>>
    ghost var pushes: seq<(nat, E)>

    ghost predicate Valid()
      reads this
    {
      && State(queues, log) == Run(noBatching, pushes)
      && IsKeyOrder(keys, queues)
      && BelowLimit(queues)
    }

    constructor (noBatching: bool)
      ensures Valid() && this.noBatching == noBatching && pushes == [] && log == []
    {
      this.noBatching := noBatching;
      queues, keys, log, pushes := map[], [], [], [];
    }

    /** push_elem. */
    method Push(w: nat, e: E)
      requires IsKeyOrder(keys, queues)
      modifies this`queues, this`keys
      ensures queues == PushElem(old(queues), w, e) && w in queues && IsKeyOrder(keys, queues)
    {
      if w in queues {
        SameKeysSameOrder(keys, queues, queues[w := queues[w] + [e]]);
        queues := queues[w := queues[w] + [e]];
      } else {
        InsertKeepsOrder(keys, queues, w, []);
        queues := queues[w := []];
        keys := Insert(keys, w);
      }
    }

    method MaybeDoConversionCheck(w: nat)
      requires w in queues && IsKeyOrder(keys, queues)
      modifies this`queues, this`log
      ensures State(queues, log) == MaybeCheck(noBatching, old(State(queues, log)), w)
      ensures IsKeyOrder(keys, queues)
    {
      var items := queues[w];
      if noBatching {
        log := log + [Check(w, ParamBSafe, items)];
        SameKeysSameOrder(keys, queues, queues[w := []]);
        queues := queues[w := []];
      } else if |items| >= 2 * BatchSize {
        var split := |items| - BatchSize;
        log := log + [Check(w, ParamB, items[split..])];
        SameKeysSameOrder(keys, queues, queues[w := items[..split]]);
        queues := queues[w := items[..split]];
      }
    }

    /** One conversion: it joins the run, and the state stays the run's state. */
    method Convert(w: nat, e: E)
      requires Valid()
      modifies this
      ensures Valid() && pushes == old(pushes) + [(w, e)]
    {
      hide IsKeyOrder, MaybeCheck, PushElem, Run, BelowLimit;
      RunSnoc(noBatching, pushes, w, e);
      pushes := pushes + [(w, e)];
      Push(w, e);
      MaybeDoConversionCheck(w);
      RunBelowLimit(noBatching, pushes);
    }

    method CheckRemaining(w: nat)
      requires w in queues && |queues[w]| < 2 * BatchSize
      modifies this`log
      ensures log == old(log) + FinalChecks(w, queues[w])
    {
      var items := queues[w];
      if |items| < BatchSizeSafe {
        log := log + [Check(w, ParamBSafe, items)];
      } else if |items| < BatchSize {
        log := log + [Check(w, ParamBSafe, items)];
      } else if |items| < BatchSize + BatchSizeSafe {
        log := log + [Check(w, ParamB, items)];
      } else {
        log := log + [Check(w, ParamB, items[..BatchSize])];
        log := log + [Check(w, ParamBSafe, items[BatchSize..])];
      }
    }

    /** Checks what is left, width by width in increasing order. The length assertion of the
        source holds because every queue was kept below the limit. */
    method FinalizeConv()
      requires Valid()
      modifies this`log
      ensures forall k <- keys :: k in queues
      ensures log == old(log) + FinalLog(keys, queues)
    {
      hide Run, FinalChecks;
      ghost var start := log;
      for i := 0 to |keys|
        invariant log == start + FinalLog(keys[..i], queues)
      {
        assert keys[..i + 1][..i] == keys[..i];
        assert |queues[keys[i]]| < 2 * BatchSize;
        CheckRemaining(keys[i]);
      }
      assert keys[..|keys|] == keys;
    }
  }

  lemma RunSnoc<E>(noBatching: bool, pushes: seq<(nat, E)>, w: nat, e: E)
    ensures Run(noBatching, pushes + [(w, e)]) == Step(noBatching, Run(noBatching, pushes), w, e)
  {
    hide Step;
    assert (pushes + [(w, e)])[..|pushes|] == pushes;
  }

  lemma RunBelowLimit<E>(noBatching: bool, pushes: seq<(nat, E)>)
    ensures BelowLimit(Run(noBatching, pushes).queues)
  {
    if noBatching { RunIsDrained(pushes); } else { RunIsBatched(pushes); }
  }

  lemma SameKeysSameOrder<E>(keys: seq<nat>, p: Queues<E>, q: Queues<E>)
    requires IsKeyOrder(keys, p) && p.Keys == q.Keys
    ensures IsKeyOrder(keys, q)
  {
    forall k ensures k in keys <==> k in q {
      assert k in p <==> k in p.Keys;
      assert k in q <==> k in q.Keys;
    }
  }

  /** Insertion of a new key in increasing order. */
  function Insert(keys: seq<nat>, w: nat): seq<nat> {
    if keys == [] || w < keys[0] then [w] + keys else [keys[0]] + Insert(keys[1..], w)
  }

  lemma {:induction false} InsertSorted(keys: seq<nat>, w: nat)
    requires (forall i, j :: 0 <= i < j < |keys| ==> keys[i] < keys[j]) && w !in keys
    ensures forall i, j :: 0 <= i < j < |Insert(keys, w)| ==> Insert(keys, w)[i] < Insert(keys, w)[j]
    ensures forall k :: k in Insert(keys, w) <==> k == w || k in keys
  {
    if keys == [] || w < keys[0] {
    } else {
      InsertSorted(keys[1..], w);
      var rest := Insert(keys[1..], w);
      forall j | 0 <= j < |rest| ensures keys[0] < rest[j] {
        assert rest[j] in rest;
        if rest[j] != w {
          assert rest[j] in keys[1..];
          var i :| 0 <= i < |keys| - 1 && keys[1..][i] == rest[j];
          assert keys[0] < keys[i + 1];
        } else {
          assert keys[0] in keys;
        }
      }
      assert keys == [keys[0]] + keys[1..];
    }
  }

  lemma InsertKeepsOrder<E>(keys: seq<nat>, q: Queues<E>, w: nat, items: seq<E>)
    requires IsKeyOrder(keys, q) && w !in q
    ensures IsKeyOrder(Insert(keys, w), q[w := items])
  {
    InsertSorted(keys, w);
  }

  // ---------- what a run keeps ----------

  /** All pushes of one width, in order. */
  function PushesOf<E>(pushes: seq<(nat, E)>, w: nat): seq<E> {
    if pushes == [] then []
    else
      var last, rest := pushes[|pushes| - 1], PushesOf(pushes[..|pushes| - 1], w);
      if last.0 == w then rest + [last.1] else rest
  }

  /** The items that entered a queue: all but the first push of the width. */
  function Kept<E>(pushes: seq<(nat, E)>, w: nat): seq<E> {
    var all := PushesOf(pushes, w);
    if all == [] then [] else all[1..]
  }

  /** Everything checked so far at one width. */
  function Checked<E>(log: seq<Check<E>>, w: nat): multiset<E> {
    if log == [] then multiset{}
    else
      var last, rest := log[|log| - 1], Checked(log[..|log| - 1], w);
      if last.width == w then rest + multiset(last.items) else rest
  }

  function Waiting<E>(s: State<E>, w: nat): seq<E> {
    if w in s.queues then s.queues[w] else []
  }

  lemma CheckedSnoc<E>(log: seq<Check<E>>, c: Check<E>, w: nat)
    ensures Checked(log + [c], w) == if c.width == w then Checked(log, w) + multiset(c.items) else Checked(log, w)
  {
    assert (log + [c])[..|log|] == log;
  }

  lemma SplitItems<E>(items: seq<E>, k: nat)
    requires k <= |items|
    ensures multiset(items) == multiset(items[..k]) + multiset(items[k..])
  {
    assert items == items[..k] + items[k..];
  }

  /** A queue exists exactly for the widths that were pushed, and checked plus waiting items
      are exactly the kept ones. */
  ghost predicate Conserved<E>(s: State<E>, pushes: seq<(nat, E)>, w: nat) {
    && (w in s.queues <==> PushesOf(pushes, w) != [])
    && Checked(s.log, w) + multiset(Waiting(s, w)) == multiset(Kept(pushes, w))
  }

  lemma KeptSnoc<E>(pushes: seq<(nat, E)>, last: (nat, E), w: nat)
    ensures PushesOf(pushes + [last], w) == PushesOf(pushes, w) + (if last.0 == w then [last.1] else [])
    ensures Kept(pushes + [last], w)
         == Kept(pushes, w) + (if last.0 == w && PushesOf(pushes, w) != [] then [last.1] else [])
  {
    assert (pushes + [last])[..|pushes|] == pushes;
  }

  lemma PushConserves<E>(s: State<E>, pushes: seq<(nat, E)>, last: (nat, E), w: nat)
    requires Conserved(s, pushes, w)
    ensures Conserved(State(PushElem(s.queues, last.0, last.1), s.log), pushes + [last], w)
  {
    hide Checked, Kept, PushesOf;
    KeptSnoc(pushes, last, w);
    if last.0 == w && w in s.queues {
      assert multiset(s.queues[w] + [last.1]) == multiset(s.queues[w]) + multiset{last.1};
      assert multiset(Kept(pushes, w) + [last.1]) == multiset(Kept(pushes, w)) + multiset{last.1};
    }
  }

  lemma CheckConserves<E>(noBatching: bool, s: State<E>, pushes: seq<(nat, E)>, k: nat, w: nat)
    requires k in s.queues && Conserved(s, pushes, w)
    ensures Conserved(MaybeCheck(noBatching, s, k), pushes, w)
  {
    hide Checked, Kept, PushesOf;
    var items := s.queues[k];
    if noBatching {
      CheckedSnoc(s.log, Check(k, ParamBSafe, items), w);
    } else if |items| >= 2 * BatchSize {
      var split := |items| - BatchSize;
      SplitItems(items, split);
      CheckedSnoc(s.log, Check(k, ParamB, items[split..]), w);
    }
  }

  /** In every run nothing kept is lost or checked twice. */
  lemma {:induction false} RunConserves<E>(noBatching: bool, pushes: seq<(nat, E)>, w: nat)
    ensures Conserved(Run(noBatching, pushes), pushes, w)
    decreases |pushes|
  {
    if pushes != [] {
      hide Conserved, MaybeCheck, PushElem, Run;
      var k, last := |pushes| - 1, pushes[|pushes| - 1];
      var s := Run(noBatching, pushes[..k]);
      RunSnoc(noBatching, pushes[..k], last.0, last.1);
      RunConserves(noBatching, pushes[..k], w);
      PushConserves(s, pushes[..k], last, w);
      PushedIsKey(s.queues, last.0, last.1);
      CheckConserves(noBatching, State(PushElem(s.queues, last.0, last.1), s.log), pushes[..k] + [last], last.0, w);
      assert pushes == pushes[..k] + [last];
    }
  }

  lemma PushedIsKey<E>(q: Queues<E>, w: nat, e: E)
    ensures w in PushElem(q, w, e)
  {
  }

  /** Sizes: below twice the batch, at least one batch once a check has fired, and every
      check so far of a full batch with the small parameter. */
  ghost predicate WellBatched<E>(s: State<E>) {
    && BelowLimit(s.queues)
    && (forall i :: 0 <= i < |s.log| ==>
          && s.log[i].b == ParamB && |s.log[i].items| == BatchSize
          && s.log[i].width in s.queues && |s.queues[s.log[i].width]| >= BatchSize)
  }

  /** Without batching every queue is empty between steps. */
  ghost predicate WellDrained<E>(s: State<E>) {
    && (forall w :: w in s.queues ==> s.queues[w] == [])
    && (forall i :: 0 <= i < |s.log| ==> s.log[i].b == ParamBSafe && |s.log[i].items| <= 1)
  }

  lemma {:induction false} RunIsBatched<E>(pushes: seq<(nat, E)>)
    ensures WellBatched(Run(false, pushes))
    decreases |pushes|
  {
    if pushes != [] { RunIsBatched(pushes[..|pushes| - 1]); }
  }

  lemma {:induction false} RunIsDrained<E>(pushes: seq<(nat, E)>)
    ensures WellDrained(Run(true, pushes))
    decreases |pushes|
  {
    if pushes != [] { RunIsDrained(pushes[..|pushes| - 1]); }
  }

  // ---------- after finalize ----------

  lemma {:induction false} CheckedAppend<E>(a: seq<Check<E>>, b: seq<Check<E>>, w: nat)
    ensures Checked(a + b, w) == Checked(a, w) + Checked(b, w)
    decreases |b|
  {
    if b == [] {
      assert a + b == a;
    } else {
      var k := |b| - 1;
      CheckedAppend(a, b[..k], w);
      assert a + b == (a + b[..k]) + [b[k]];
      CheckedSnoc(a + b[..k], b[k], w);
    }
  }

  lemma FinalChecksCover<E>(k: nat, items: seq<E>, w: nat)
    ensures Checked(FinalChecks(k, items), w) == if k == w then multiset(items) else multiset{}
  {
    var log := FinalChecks(k, items);
    if |items| < BatchSize + BatchSizeSafe {
      CheckedSnoc([], log[0], w);
      assert log == [] + [log[0]];
    } else {
      SplitItems(items, BatchSize);
      CheckedSnoc([], log[0], w);
      CheckedSnoc([log[0]], log[1], w);
      assert log == [log[0]] + [log[1]] && [log[0]] == [] + [log[0]];
    }
  }

  /** The last of increasing keys is new. */
  lemma LastKey(keys: seq<nat>, k: nat, w: nat)
    requires |keys| == k + 1 && forall i, j :: 0 <= i < j < |keys| ==> keys[i] < keys[j]
    ensures w in keys <==> w in keys[..k] || w == keys[k]
    ensures keys[k] !in keys[..k]
  {
    assert keys == keys[..k] + [keys[k]];
  }

  lemma {:induction false} FinalLogCovers<E>(keys: seq<nat>, q: Queues<E>, w: nat)
    requires (forall k <- keys :: k in q) && forall i, j :: 0 <= i < j < |keys| ==> keys[i] < keys[j]
    ensures Checked(FinalLog(keys, q), w) == if w in keys then multiset(q[w]) else multiset{}
    decreases |keys|
  {
    if keys != [] {
      var k := |keys| - 1;
      hide Checked, FinalChecks;
      FinalLogCovers(keys[..k], q, w);
      FinalChecksCover(keys[k], q[keys[k]], w);
      CheckedAppend(FinalLog(keys[..k], q), FinalChecks(keys[k], q[keys[k]]), w);
      LastKey(keys, k, w);
    }
  }

  /** Over a whole run and its finalize, each kept conversion is checked exactly once. */
  lemma EveryKeptItemIsCheckedOnce<E>(noBatching: bool, pushes: seq<(nat, E)>, keys: seq<nat>, w: nat)
    requires IsKeyOrder(keys, Run(noBatching, pushes).queues)
    ensures var s := Run(noBatching, pushes);
      Checked(s.log + FinalLog(keys, s.queues), w) == multiset(Kept(pushes, w))
  {
    var s := Run(noBatching, pushes);
    RunConserves(noBatching, pushes, w);
    FinalLogCovers(keys, s.queues, w);
    CheckedAppend(s.log, FinalLog(keys, s.queues), w);
  }

  /** How large a check is, and with which parameter. */
  ghost predicate IsSafe<E>(c: Check<E>) {
    (c.b == ParamB && |c.items| >= BatchSize) || (c.b == ParamBSafe && |c.items| >= BatchSizeSafe)
  }

  lemma FinalChecksSafe<E>(k: nat, items: seq<E>)
    ensures forall i :: 0 <= i < |FinalChecks(k, items)| ==> FinalChecks(k, items)[i].width == k
    ensures |items| >= BatchSizeSafe ==> forall i :: 0 <= i < |FinalChecks(k, items)| ==>
      IsSafe(FinalChecks(k, items)[i])
    ensures |items| < BatchSizeSafe ==> FinalChecks(k, items) == [Check(k, ParamBSafe, items)]
  {
  }

  lemma {:induction false} FinalLogSafe<E>(keys: seq<nat>, q: Queues<E>, i: nat)
    requires (forall k <- keys :: k in q) && i < |FinalLog(keys, q)|
    ensures var c := FinalLog(keys, q)[i];
      c.width in keys && (IsSafe(c) <==> |q[c.width]| >= BatchSizeSafe)
    decreases |keys|
  {
    var k := |keys| - 1;
    var rest := FinalLog(keys[..k], q);
    assert keys == keys[..k] + [keys[k]];
    if i < |rest| {
      FinalLogSafe(keys[..k], q, i);
    } else {
      FinalChecksSafe(keys[k], q[keys[k]]);
      assert FinalLog(keys, q)[i] == FinalChecks(keys[k], q[keys[k]])[i - |rest|];
    }
  }

  /** With batching, a check is below the safe size exactly when its width kept fewer than
      1024 conversions in the whole run; that is the branch that warns. */
  lemma UnsafeOnlyWhenFew<E>(pushes: seq<(nat, E)>, keys: seq<nat>, i: nat)
    requires IsKeyOrder(keys, Run(false, pushes).queues)
    requires i < |Run(false, pushes).log + FinalLog(keys, Run(false, pushes).queues)|
    ensures var s := Run(false, pushes); var c := (s.log + FinalLog(keys, s.queues))[i];
      IsSafe(c) <==> |Kept(pushes, c.width)| >= BatchSizeSafe
  {
    var s := Run(false, pushes);
    var c := (s.log + FinalLog(keys, s.queues))[i];
    RunIsBatched(pushes);
    RunConserves(false, pushes, c.width);
    var w := c.width;
    var kept := Kept(pushes, w);
    assert |multiset(kept)| == |kept|;
    assert |Checked(s.log, w) + multiset(Waiting(s, w))| == |Checked(s.log, w)| + |Waiting(s, w)|;
    if i < |s.log| {
      assert c == s.log[i];
    } else {
      FinalLogSafe(keys, s.queues, i - |s.log|);
      if |s.queues[w]| < BatchSizeSafe { NothingFired(s, s.log, w); }
    }
  }

  /** A queue below one batch has never been checked. */
  lemma {:induction false} NothingFired<E>(s: State<E>, log: seq<Check<E>>, w: nat)
    requires WellBatched(s) && w in s.queues && |s.queues[w]| < BatchSize && log <= s.log
    ensures Checked(log, w) == multiset{}
    decreases |log|
  {
    if log != [] {
      assert log[|log| - 1] == s.log[|log| - 1];
      NothingFired(s, log[..|log| - 1], w);
    }
  }

  /** The first conversion of a width enters no queue. */
  lemma FirstPushIsNotKept<E>(noBatching: bool, pushes: seq<(nat, E)>, w: nat, e: E)
    requires PushesOf(pushes, w) == []
    ensures Kept(pushes + [(w, e)], w) == [] && PushesOf(pushes + [(w, e)], w) == [e]
    ensures var s := Run(noBatching, pushes + [(w, e)]); w in s.queues && Waiting(s, w) == []
  {
    KeptSnoc(pushes, (w, e), w);
    var s := Run(noBatching, pushes + [(w, e)]);
    RunConserves(noBatching, pushes + [(w, e)], w);
    assert |multiset(Waiting(s, w))| == |Waiting(s, w)|;
  }

  /** So the checks of a finished run cover every conversion of a width exactly when there
      was none: one conversion per width in use goes unchecked. */
  lemma AllCheckedOnlyIfNone<E>(noBatching: bool, pushes: seq<(nat, E)>, keys: seq<nat>, w: nat)
    requires IsKeyOrder(keys, Run(noBatching, pushes).queues)
    ensures var s := Run(noBatching, pushes); var done := Checked(s.log + FinalLog(keys, s.queues), w);
      && (done == multiset(PushesOf(pushes, w)) <==> PushesOf(pushes, w) == [])
      && (PushesOf(pushes, w) != [] ==> multiset(PushesOf(pushes, w)) == done + multiset{PushesOf(pushes, w)[0]})
  {
    EveryKeptItemIsCheckedOnce(noBatching, pushes, keys, w);
    var all := PushesOf(pushes, w);
    if all != [] {
      assert all == [all[0]] + all[1..];
      assert |multiset(all)| == |all| && |multiset(all[1..])| == |all| - 1;
    }
  }

  // ---------- which items each check takes ----------

  /** The checks of one width, in order. */
  function ChecksOf<E>(log: seq<Check<E>>, w: nat): seq<Check<E>> {
    if log == [] then []
    else
      var last, rest := log[|log| - 1], ChecksOf(log[..|log| - 1], w);
      if last.width == w then rest + [last] else rest
  }

  lemma ChecksOfSnoc<E>(log: seq<Check<E>>, c: Check<E>, w: nat)
    ensures ChecksOf(log + [c], w) == ChecksOf(log, w) + (if c.width == w then [c] else [])
  {
    assert (log + [c])[..|log|] == log;
  }

  /** How many checks n kept items have set off. */
  function Fired(n: nat): nat {
    if n < 20642 then 0 else n / 10321 - 1
  }

  /** The first 10321 items stay until the end; every later block of 10321 is one check with
      bucket parameter 4, and what is past the last full block waits behind the first ones. */
  ghost predicate InBlocks<E>(s: State<E>, kept: seq<E>, w: nat) {
    var n, done := |kept|, ChecksOf(s.log, w);
    && |done| == Fired(n)
    && (forall i :: 0 <= i < |done| ==> done[i] == Check(w, 4, kept[10321 * (i + 1)..10321 * (i + 2)]))
    && Waiting(s, w) == if n < 20642 then kept else kept[..10321] + kept[10321 * (Fired(n) + 1)..]
  }

  /** With batching, for every sequence of conversions: what the checks of a width have taken
      and what still waits, as slices of what the width has kept. */
  lemma {:induction false} RunInBlocks<E>(pushes: seq<(nat, E)>, w: nat)
    ensures InBlocks(Run(false, pushes), Kept(pushes, w), w)
    ensures w in Run(false, pushes).queues <==> PushesOf(pushes, w) != []
    decreases |pushes|
  {
    if pushes != [] {
      hide InBlocks, Run, PushesOf, Kept, Step;
      var k, last := |pushes| - 1, pushes[|pushes| - 1];
      assert pushes == pushes[..k] + [last];
      RunInBlocks(pushes[..k], w);
      RunConserves(false, pushes, w);
      RunSnoc(false, pushes[..k], last.0, last.1);
      KeptSnoc(pushes[..k], last, w);
      StepInBlocks(Run(false, pushes[..k]), Kept(pushes[..k], w), last.0, last.1, w);
    }
  }

  lemma StepInBlocks<E>(s: State<E>, kept: seq<E>, k: nat, e: E, w: nat)
    requires InBlocks(s, kept, w)
    ensures InBlocks(Step(false, s, k, e), if k == w && w in s.queues then kept + [e] else kept, w)
  {
    hide ChecksOf, InBlocks;
    var t := Step(false, s, k, e);
    if k != w {
      OtherWidth(s, k, e, w);
      SameBlocks(s, t, kept, w);
    } else if w !in s.queues {
      NothingKept(s, kept, w);
      SameBlocks(s, t, kept, w);
    } else {
      OneMoreKept(s, kept, e, w);
    }
  }

  lemma OtherWidth<E>(s: State<E>, k: nat, e: E, w: nat)
    requires k != w
    ensures var t := Step(false, s, k, e); ChecksOf(t.log, w) == ChecksOf(s.log, w) && Waiting(t, w) == Waiting(s, w)
  {
    hide ChecksOf;
    var items := PushElem(s.queues, k, e)[k];
    if |items| >= 2 * BatchSize { ChecksOfSnoc(s.log, Check(k, ParamB, items[|items| - BatchSize..]), w); }
  }

  lemma SameBlocks<E>(s: State<E>, t: State<E>, kept: seq<E>, w: nat)
    requires InBlocks(s, kept, w) && ChecksOf(t.log, w) == ChecksOf(s.log, w) && Waiting(t, w) == Waiting(s, w)
    ensures InBlocks(t, kept, w)
  {
    hide ChecksOf, Waiting;
  }

  lemma NothingKept<E>(s: State<E>, kept: seq<E>, w: nat)
    requires InBlocks(s, kept, w) && w !in s.queues
    ensures kept == []
  {
    assert Waiting(s, w) == [];
    if |kept| >= 20642 { assert false; }
  }

  lemma OneMoreKept<E>(s: State<E>, kept: seq<E>, e: E, w: nat)
    requires InBlocks(s, kept, w) && w in s.queues
    ensures InBlocks(Step(false, s, w, e), kept + [e], w)
  {
    hide ChecksOf, Step;
    var n, c := |kept|, Fired(|kept|);
    var kept', items, done := kept + [e], s.queues[w] + [e], ChecksOf(s.log, w);
    assert |items| == if n < 20642 then n + 1 else n + 1 - 10321 * c;
    forall i | 0 <= i < |done|
      ensures done[i].items == kept'[10321 * (i + 1)..10321 * (i + 2)]
    {
    }
    if |items| < 20642 {
      StepWaits(s, w, e);
      assert Fired(n + 1) == c;
    } else {
      StepFires(s, w, e);
      assert Fired(n + 1) == c + 1 && n + 1 == 10321 * (c + 2);
      assert items[10321..] == kept'[10321 * (c + 1)..10321 * (c + 2)];
      assert items[..10321] == kept'[..10321] && kept'[10321 * (c + 2)..] == [];
    }
  }

  lemma StepWaits<E>(s: State<E>, w: nat, e: E)
    requires w in s.queues && |s.queues[w]| + 1 < 20642
    ensures Step(false, s, w, e) == State(s.queues[w := s.queues[w] + [e]], s.log)
  {
  }

  lemma StepFires<E>(s: State<E>, w: nat, e: E)
    requires w in s.queues && |s.queues[w]| + 1 == 20642
    ensures var t, items := Step(false, s, w, e), s.queues[w] + [e];
      && w in t.queues && t.queues[w] == items[..10321]
      && ChecksOf(t.log, w) == ChecksOf(s.log, w) + [Check(w, 4, items[10321..])]
  {
    hide ChecksOf;
    ChecksOfSnoc(s.log, Check(w, ParamB, (s.queues[w] + [e])[10321..]), w);
  }

  /** Without batching there is one check with bucket parameter 5 for every conversion, of
      nothing for the first and of the conversion itself for every other one. */
  lemma {:induction false} RunWithoutBatching<E>(pushes: seq<(nat, E)>, w: nat)
    ensures var done, all := ChecksOf(Run(true, pushes).log, w), PushesOf(pushes, w);
      |done| == |all| && forall i :: 0 <= i < |done| ==> done[i] == Check(w, 5, if i == 0 then [] else [all[i]])
    decreases |pushes|
  {
    if pushes != [] {
      hide Run, PushesOf;
      var k, last := |pushes| - 1, pushes[|pushes| - 1];
      assert pushes == pushes[..k] + [last];
      RunWithoutBatching(pushes[..k], w);
      RunConserves(true, pushes[..k], last.0);
      RunIsDrained(pushes[..k]);
      RunSnoc(true, pushes[..k], last.0, last.1);
      KeptSnoc(pushes[..k], last, w);
      var s := Run(true, pushes[..k]);
      ChecksOfSnoc(s.log, Check(last.0, 5, if last.0 in s.queues then [last.1] else []), w);
    }
  }

  /** At the end a queue of fewer than 10321 items is one check with parameter 5, a queue of
      10321 to 11344 items one check with parameter 4, and a longer one is two checks: its first
      10321 items with parameter 4 and the others with parameter 5. */
  lemma FinalChecksAre<E>(w: nat, items: seq<E>)
    ensures |items| < 10321 ==> FinalChecks(w, items) == [Check(w, 5, items)]
    ensures 10321 <= |items| < 11345 ==> FinalChecks(w, items) == [Check(w, 4, items)]
    ensures 11345 <= |items| ==>
      FinalChecks(w, items) == [Check(w, 4, items[..10321]), Check(w, 5, items[10321..])]
  {
  }

  /** The last checks go width by width, in increasing order. */
  lemma {:induction false} FinalLogInOrder<E>(keys: seq<nat>, q: Queues<E>)
    requires (forall k <- keys :: k in q) && forall i, j :: 0 <= i < j < |keys| ==> keys[i] < keys[j]
    ensures forall i :: 0 <= i < |FinalLog(keys, q)| ==> FinalLog(keys, q)[i].width in keys
    ensures forall i, j :: 0 <= i < j < |FinalLog(keys, q)| ==> FinalLog(keys, q)[i].width <= FinalLog(keys, q)[j].width
    decreases |keys|
  {
    if keys != [] {
      var k := |keys| - 1;
      var rest, last, all := FinalLog(keys[..k], q), FinalChecks(keys[k], q[keys[k]]), FinalLog(keys, q);
      FinalLogInOrder(keys[..k], q);
      FinalChecksSafe(keys[k], q[keys[k]]);
      hide FinalChecks, FinalLog;
      assert forall i :: 0 <= i < |rest| ==> rest[i].width in keys[..k];
      forall i | 0 <= i < |all|
        ensures all[i].width in keys && all[i].width <= keys[k] && (i >= |rest| ==> all[i].width == keys[k])
      {
        if i < |rest| { assert all[i] == rest[i]; } else { assert all[i] == last[i - |rest|]; }
      }
      assert forall i :: 0 <= i < |rest| ==> all[i] == rest[i];
    }
  }

  /** The last checks of one width are those of its queue. */
  lemma {:induction false} FinalLogOf<E>(keys: seq<nat>, q: Queues<E>, w: nat)
    requires (forall k <- keys :: k in q) && forall i, j :: 0 <= i < j < |keys| ==> keys[i] < keys[j]
    ensures ChecksOf(FinalLog(keys, q), w) == if w in keys then FinalChecks(w, q[w]) else []
    decreases |keys|
  {
    if keys != [] {
      hide FinalChecks, ChecksOf;
      var k := |keys| - 1;
      FinalLogOf(keys[..k], q, w);
      LastKey(keys, k, w);
      FinalChecksOf(keys[k], q[keys[k]], w);
      ChecksOfAppend(FinalLog(keys[..k], q), FinalChecks(keys[k], q[keys[k]]), w);
    }
  }

  lemma {:induction false} ChecksOfAppend<E>(a: seq<Check<E>>, b: seq<Check<E>>, w: nat)
    ensures ChecksOf(a + b, w) == ChecksOf(a, w) + ChecksOf(b, w)
    decreases |b|
  {
    if b == [] {
      assert a + b == a;
    } else {
      var k := |b| - 1;
      ChecksOfAppend(a, b[..k], w);
      assert a + b == (a + b[..k]) + [b[k]];
      ChecksOfSnoc(a + b[..k], b[k], w);
    }
  }

  lemma FinalChecksOf<E>(k: nat, items: seq<E>, w: nat)
    ensures ChecksOf(FinalChecks(k, items), w) == if k == w then FinalChecks(k, items) else []
  {
    var log := FinalChecks(k, items);
    ChecksOfSnoc([], log[0], w);
    assert [] + [log[0]] == [log[0]];
    if |log| == 2 {
      ChecksOfSnoc([log[0]], log[1], w);
      assert [log[0]] + [log[1]] == log;
    }
  }
}
