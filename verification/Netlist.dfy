/** Translation of a gate netlist from Verilog to Bristol Fashion (swanky-dev/zkv/vg2bf.py):
    wires are numbered, every gate is checked and printed, and the gate count is patched
    into the header at the end. */
module Netlist {
  import opened Wrappers
  import opened Bristol

  datatype Kind = KindAND | KindXOR | KindINV | KindBUF

  /** A parsed gate: its kind and its labelled pins. */
  datatype VGate = VGate(kind: Kind, pins: seq<(string, string)>)

  /** A parsed module: declared wires, wires per value as written, gates in file order. */
  datatype Module = Module(
    inputs: seq<string>, internals: seq<string>, outputs: seq<string>,
    iwv: seq<string>, owv: seq<string>, gates: seq<VGate>)

  type Names = map<string, nat>

  // ---------- one gate ----------

  /** The wire on the first pin with this label. */
  function FindPin(pins: seq<(string, string)>, lbl: string): Result<string> {
    if pins == [] then Err else if pins[0].0 == lbl then Ok(pins[0].1) else FindPin(pins[1..], lbl)
  }

  ghost predicate InRange(names: Names, valid: seq<bool>) {
    forall n :: n in names ==> names[n] < |valid|
  }

  /** Pins A and B must be driven already. */
  function Source(names: Names, valid: seq<bool>, g: VGate, lbl: string): (r: Result<nat>)
    requires InRange(names, valid)
    ensures r.Ok? ==> r.value < |valid| && valid[r.value]
  {
    var nm := FindPin(g.pins, lbl);
    if nm.Ok? && nm.value in names && valid[names[nm.value]] then Ok(names[nm.value]) else Err
  }

  /** Pin Y must not be driven yet. */
  function Target(names: Names, valid: seq<bool>, g: VGate): (r: Result<nat>)
    requires InRange(names, valid)
    ensures r.Ok? ==> r.value < |valid| && !valid[r.value]
  {
    var nm := FindPin(g.pins, "Y");
    if nm.Ok? && nm.value in names && !valid[names[nm.value]] then Ok(names[nm.value]) else Err
  }

  predicate IsBinary(k: Kind) {
    k == KindAND || k == KindXOR
  }

  function GateOf(k: Kind, a: nat, b: nat, y: nat): Gate {
    match k
    case KindAND => AND(a, b, y)
    case KindXOR => XOR(a, b, y)
    case KindINV => INV(a, y)
    case KindBUF => EQW(a, y)
  }

  /** The emitted gate and the wires driven after it. */
  function Emit(names: Names, valid: seq<bool>, g: VGate): (r: Result<(Gate, seq<bool>)>)
    requires InRange(names, valid)
    ensures r.Ok? ==> |r.value.1| == |valid|
  {
    var a, b, y := Source(names, valid, g, "A"), Source(names, valid, g, "B"), Target(names, valid, g);
    if a.Err? || (IsBinary(g.kind) && b.Err?) || y.Err? then Err
    else Ok((GateOf(g.kind, a.value, if b.Ok? then b.value else 0, y.value), valid[y.value := true]))
  }

  /** All gates in order. */
  function EmitAll(names: Names, valid: seq<bool>, gates: seq<VGate>): (r: Result<(seq<Gate>, seq<bool>)>)
    requires InRange(names, valid)
    ensures r.Ok? ==> |r.value.0| == |gates| && |r.value.1| == |valid|
    decreases |gates|
  {
    if gates == [] then Ok(([], valid))
    else
      var init := EmitAll(names, valid, gates[..|gates| - 1]);
      if init.Err? then Err
      else
        var last := Emit(names, init.value.1, gates[|gates| - 1]);
        if last.Err? then Err else Ok((init.value.0 + [last.value.0], last.value.1))
  }

  // ---------- wire numbers ----------

  predicate Distinct(s: seq<string>) {
    forall i, j :: 0 <= i < j < |s| ==> s[i] != s[j]
  }

  function NameTable(s: seq<string>): Names {
    if s == [] then map[] else NameTable(s[..|s| - 1])[s[|s| - 1] := |s| - 1]
  }

  lemma {:induction false} NameTableIndex(s: seq<string>)
    requires Distinct(s)
    ensures forall n :: n in NameTable(s) <==> n in s
    ensures forall i :: 0 <= i < |s| ==> s[i] in NameTable(s) && NameTable(s)[s[i]] == i
    decreases |s|
  {
    if s != [] {
      var k := |s| - 1;
      NameTableIndex(s[..k]);
      assert s == s[..k] + [s[k]];
      assert forall i :: 0 <= i < k ==> s[i] == s[..k][i];
    }
  }

  /** Different names have different numbers below the number of wires. */
  ghost predicate IsNumbering(names: Names, count: nat) {
    && (forall n :: n in names ==> names[n] < count)
    && (forall n, m :: n in names && m in names && names[n] == names[m] ==> n == m)
  }

  lemma NameTableNumbers(s: seq<string>)
    requires Distinct(s)
    ensures IsNumbering(NameTable(s), |s|)
  {
    NameTableIndex(s);
    var t := NameTable(s);
    forall n | n in t ensures t[n] < |s| && s[t[n]] == n {
      var i :| 0 <= i < |s| && s[i] == n;
    }
  }

  function AllWires(m: Module): seq<string> {
    m.inputs + m.internals + m.outputs
  }

  function InitiallyValid(m: Module): (r: seq<bool>)
    ensures |r| == |AllWires(m)|
  {
    seq(|AllWires(m)|, i requires 0 <= i < |AllWires(m)| => i < |m.inputs|)
  }

  // ---------- meaning ----------

  function Op(k: Kind, a: bool, b: bool): bool {
    match k
    case KindAND => a && b
    case KindXOR => a != b
    case KindINV => !a
    case KindBUF => a
  }

  /** The equation a Verilog gate states between the values of its wires, in any order. */
  ghost predicate Holds(env: string -> bool, g: VGate) {
    var a, b, y := FindPin(g.pins, "A"), FindPin(g.pins, "B"), FindPin(g.pins, "Y");
    && a.Ok? && y.Ok? && (IsBinary(g.kind) ==> b.Ok?)
    && env(y.value) == Op(g.kind, env(a.value), b.Ok? && env(b.value))
  }

  predicate WiresIn(g: Gate, n: nat) {
    g.out < n && match g
      case XOR(a, b, _) => a < n && b < n
      case AND(a, b, _) => a < n && b < n
      case INV(a, _) => a < n
      case EQ(_, _) => true
      case EQW(a, _) => a < n
  }

  /** Running one Bristol gate. */
  function Exec1(g: Gate, vals: seq<bool>): (r: seq<bool>)
    requires WiresIn(g, |vals|)
    ensures |r| == |vals|
  {
    match g
    case XOR(a, b, out) => vals[out := vals[a] != vals[b]]
    case AND(a, b, out) => vals[out := vals[a] && vals[b]]
    case INV(a, out) => vals[out := !vals[a]]
    case EQ(lit, out) => vals[out := lit]
    case EQW(a, out) => vals[out := vals[a]]
  }

  function Exec(gates: seq<Gate>, vals: seq<bool>): (r: seq<bool>)
    requires forall i :: 0 <= i < |gates| ==> WiresIn(gates[i], |vals|)
    ensures |r| == |vals|
    decreases |gates|
  {
    if gates == [] then vals else Exec1(gates[|gates| - 1], Exec(gates[..|gates| - 1], vals))
  }

  /** vals carries env on every driven wire. */
  ghost predicate Carries(names: Names, valid: seq<bool>, env: string -> bool, vals: seq<bool>)
    requires InRange(names, valid) && |vals| == |valid|
  {
    forall n :: n in names && valid[names[n]] ==> vals[names[n]] == env(n)
  }

  lemma EmittedGate(names: Names, valid: seq<bool>, g: VGate)
    requires InRange(names, valid) && Emit(names, valid, g).Ok?
    ensures var (gate, valid') := Emit(names, valid, g).value;
      && WiresIn(gate, |valid|) && !valid[gate.out] && valid' == valid[gate.out := true]
  {
  }

  lemma {:induction false} EmittedInRange(names: Names, valid: seq<bool>, gates: seq<VGate>)
    requires InRange(names, valid) && EmitAll(names, valid, gates).Ok?
    ensures forall i :: 0 <= i < |gates| ==> WiresIn(EmitAll(names, valid, gates).value.0[i], |valid|)
    decreases |gates|
  {
    if gates != [] {
      var k := |gates| - 1;
      EmittedInRange(names, valid, gates[..k]);
      EmittedGate(names, EmitAll(names, valid, gates[..k]).value.1, gates[k]);
    }
  }

  lemma StepCarries(names: Names, valid: seq<bool>, g: VGate, env: string -> bool, vals: seq<bool>)
    requires IsNumbering(names, |valid|) && |vals| == |valid| && Emit(names, valid, g).Ok?
    requires Carries(names, valid, env, vals) && Holds(env, g)
    ensures var (gate, valid') := Emit(names, valid, g).value;
      WiresIn(gate, |vals|) && Carries(names, valid', env, Exec1(gate, vals))
  {
    EmittedGate(names, valid, g);
    var (gate, valid') := Emit(names, valid, g).value;
    var y := FindPin(g.pins, "Y").value;
    assert names[y] == gate.out;
    var vals' := Exec1(gate, vals);
    assert vals'[gate.out] == env(y);
    forall n | n in names && valid'[names[n]] ensures vals'[names[n]] == env(n) {
      if names[n] == gate.out { assert n == y; }
    }
  }

  /** Any solution of the Verilog equations is what the emitted circuit computes. */
  lemma {:induction false} ExecComputesSolution(names: Names, valid: seq<bool>, gates: seq<VGate>,
                                                env: string -> bool, vals: seq<bool>)
    requires IsNumbering(names, |valid|) && |vals| == |valid| && EmitAll(names, valid, gates).Ok?
    requires Carries(names, valid, env, vals) && forall i :: 0 <= i < |gates| ==> Holds(env, gates[i])
    ensures var (out, valid') := EmitAll(names, valid, gates).value;
      (forall i :: 0 <= i < |out| ==> WiresIn(out[i], |vals|)) && Carries(names, valid', env, Exec(out, vals))
    decreases |gates|
  {
    EmittedInRange(names, valid, gates);
    if gates != [] {
      var k := |gates| - 1;
      hide Holds, Emit;
      ExecComputesSolution(names, valid, gates[..k], env, vals);
      var (out, valid') := EmitAll(names, valid, gates[..k]).value;
      StepCarries(names, valid', gates[k], env, Exec(out, vals));
      assert EmitAll(names, valid, gates).value.0[..k] == out;
    }
  }

  /** The values the emitted circuit computes, read back by name. */
  function ReadBack(names: Names, vals: seq<bool>): string -> bool {
    n => n in names && names[n] < |vals| && vals[names[n]]
  }

  lemma StepSolves(names: Names, valid: seq<bool>, g: VGate, vals: seq<bool>)
    requires IsNumbering(names, |valid|) && |vals| == |valid| && Emit(names, valid, g).Ok?
    ensures WiresIn(Emit(names, valid, g).value.0, |vals|)
    ensures Holds(ReadBack(names, Exec1(Emit(names, valid, g).value.0, vals)), g)
  {
    EmittedGate(names, valid, g);
  }

  ghost predicate Driven(names: Names, valid: seq<bool>, nm: Result<string>) {
    nm.Ok? && nm.value in names && names[nm.value] < |valid| && valid[names[nm.value]]
  }

  /** All wires of the gate are driven. */
  ghost predicate PinsDriven(names: Names, valid: seq<bool>, g: VGate) {
    && Driven(names, valid, FindPin(g.pins, "A")) && Driven(names, valid, FindPin(g.pins, "Y"))
    && (IsBinary(g.kind) ==> Driven(names, valid, FindPin(g.pins, "B")))
  }

  lemma EmittedPinsDriven(names: Names, valid: seq<bool>, g: VGate)
    requires InRange(names, valid) && Emit(names, valid, g).Ok?
    ensures PinsDriven(names, Emit(names, valid, g).value.1, g)
  {
  }

  lemma {:induction false} AllPinsDriven(names: Names, valid: seq<bool>, gates: seq<VGate>, i: nat)
    requires InRange(names, valid) && EmitAll(names, valid, gates).Ok? && i < |gates|
    ensures PinsDriven(names, EmitAll(names, valid, gates).value.1, gates[i])
    decreases |gates|
  {
    var k := |gates| - 1;
    var mid := EmitAll(names, valid, gates[..k]).value.1;
    if i == k {
      EmittedPinsDriven(names, mid, gates[k]);
    } else {
      AllPinsDriven(names, valid, gates[..k], i);
      EmittedGate(names, mid, gates[k]);
    }
  }

  /** Equal values on the driven wires satisfy the same equations. */
  lemma HoldsAgain(names: Names, valid: seq<bool>, g: VGate, vals: seq<bool>, vals': seq<bool>)
    requires |vals| == |vals'| == |valid| && PinsDriven(names, valid, g)
    requires forall w :: 0 <= w < |valid| && valid[w] ==> vals[w] == vals'[w]
    requires Holds(ReadBack(names, vals), g)
    ensures Holds(ReadBack(names, vals'), g)
  {
  }

  /** What the emitted circuit computes solves every Verilog equation. */
  lemma {:induction false} ExecSolves(names: Names, valid: seq<bool>, gates: seq<VGate>, vals: seq<bool>, i: nat)
    requires IsNumbering(names, |valid|) && |vals| == |valid| && EmitAll(names, valid, gates).Ok? && i < |gates|
    ensures var out := EmitAll(names, valid, gates).value.0;
      (forall j :: 0 <= j < |out| ==> WiresIn(out[j], |vals|)) && Holds(ReadBack(names, Exec(out, vals)), gates[i])
    decreases |gates|
  {
    EmittedInRange(names, valid, gates);
    var k := |gates| - 1;
    var (init, mid) := EmitAll(names, valid, gates[..k]).value;
    assert EmitAll(names, valid, gates).value.0[..k] == init;
    EmittedInRange(names, valid, gates[..k]);
    var before := Exec(init, vals);
    if i == k {
      StepSolves(names, mid, gates[k], before);
    } else {
      ExecSolves(names, valid, gates[..k], vals, i);
      AllPinsDriven(names, valid, gates[..k], i);
      EmittedGate(names, mid, gates[k]);
      HoldsAgain(names, mid, gates[i], before, Exec(EmitAll(names, valid, gates).value.0, vals));
    }
  }

  // ---------- drivers ----------

  /** Wire w is a circuit input or the output of one of the first k gates. */
  ghost predicate DrivenBefore(gates: seq<Gate>, inputs: nat, k: nat, w: nat)
    requires k <= |gates|
  {
    w < inputs || exists j :: 0 <= j < k && gates[j].out == w
  }

  function Reads(g: Gate): set<nat> {
    match g
    case XOR(a, b, _) => {a, b}
    case AND(a, b, _) => {a, b}
    case INV(a, _) => {a}
    case EQ(_, _) => {}
    case EQW(a, _) => {a}
  }

  /** Every gate reads driven wires only, and drives one that was not. */
  ghost predicate WellDriven(gates: seq<Gate>, inputs: nat) {
    forall k :: 0 <= k < |gates| ==>
      && !DrivenBefore(gates, inputs, k, gates[k].out)
      && forall w :: w in Reads(gates[k]) ==> DrivenBefore(gates, inputs, k, w)
  }

  /** The flags record exactly the driven wires. */
  ghost predicate FlagsMatch(gates: seq<Gate>, inputs: nat, valid: seq<bool>) {
    forall w :: 0 <= w < |valid| ==> (valid[w] <==> DrivenBefore(gates, inputs, |gates|, w))
  }

  lemma DrivenBeforePrefix(gates: seq<Gate>, g: Gate, inputs: nat, k: nat, w: nat)
    requires k <= |gates|
    ensures DrivenBefore(gates + [g], inputs, k, w) <==> DrivenBefore(gates, inputs, k, w)
    ensures k == |gates| ==> (DrivenBefore(gates + [g], inputs, k + 1, w)
      <==> DrivenBefore(gates, inputs, k, w) || w == g.out)
  {
    var all := gates + [g];
    assert forall j :: 0 <= j < |gates| ==> all[j] == gates[j];
    if k == |gates| && w == g.out { assert all[k].out == w; }
  }

  lemma EmitReadsDriven(names: Names, valid: seq<bool>, g: VGate)
    requires InRange(names, valid) && Emit(names, valid, g).Ok?
    ensures forall w :: w in Reads(Emit(names, valid, g).value.0) ==> w < |valid| && valid[w]
  {
  }

  lemma StepWellDriven(names: Names, valid: seq<bool>, g: VGate, out: seq<Gate>, inputs: nat)
    requires InRange(names, valid) && Emit(names, valid, g).Ok? && WellDriven(out, inputs)
      && FlagsMatch(out, inputs, valid)
    ensures WellDriven(out + [Emit(names, valid, g).value.0], inputs)
    ensures FlagsMatch(out + [Emit(names, valid, g).value.0], inputs, Emit(names, valid, g).value.1)
  {
    EmittedGate(names, valid, g);
    EmitReadsDriven(names, valid, g);
    var (gate, valid') := Emit(names, valid, g).value;
    var all := out + [gate];
    hide Emit, DrivenBefore;
    forall k | 0 <= k < |all|
      ensures !DrivenBefore(all, inputs, k, all[k].out)
        && forall w :: w in Reads(all[k]) ==> DrivenBefore(all, inputs, k, w)
    {
      DrivenBeforePrefix(out, gate, inputs, k, all[k].out);
      forall w | w in Reads(all[k]) ensures DrivenBefore(all, inputs, k, w) {
        DrivenBeforePrefix(out, gate, inputs, k, w);
      }
    }
    forall w | 0 <= w < |valid'| ensures valid'[w] <==> DrivenBefore(all, inputs, |all|, w) {
      DrivenBeforePrefix(out, gate, inputs, |out|, w);
    }
  }

  lemma {:induction false} EmittedWellDriven(names: Names, valid: seq<bool>, gates: seq<VGate>, inputs: nat)
    requires InRange(names, valid) && EmitAll(names, valid, gates).Ok?
    requires forall w :: 0 <= w < |valid| ==> (valid[w] <==> w < inputs)
    ensures var (out, valid') := EmitAll(names, valid, gates).value;
      WellDriven(out, inputs) && FlagsMatch(out, inputs, valid')
    decreases |gates|
  {
    if gates != [] {
      var k := |gates| - 1;
      EmittedWellDriven(names, valid, gates[..k], inputs);
      var (out, mid) := EmitAll(names, valid, gates[..k]).value;
      StepWellDriven(names, mid, gates[k], out, inputs);
    }
  }
}
