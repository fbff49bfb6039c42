/** The translator as a program with its output file, and what reading that file gives back
    (swanky-dev/zkv/vg2bf.py, swanky-dev/bristol-fashion/src/lib.rs). */
module Translator {
  import opened Wrappers
  import opened Bristol
  import opened Netlist

  // ---------- text ----------

  function Join(words: seq<string>): string {
    if |words| == 0 then [] else if |words| == 1 then words[0] else words[0] + " " + Join(words[1..])
  }

  ghost predicate AllWords(words: seq<string>) {
    forall i :: 0 <= i < |words| ==> IsWord(words[i])
  }

  lemma TokensOfNewline()
    ensures Tokens("\n") == []
  {
    TokensOfSpace('\n', []);
    assert ['\n'] + [] == "\n";
  }

  lemma {:induction false} TokensOfJoin(words: seq<string>)
    requires AllWords(words)
    ensures Tokens(Join(words) + "\n") == words && '\n' !in Join(words)
  {
    TokensOfNewline();
    if |words| == 0 {
      assert Join(words) + "\n" == "\n";
    } else if |words| == 1 {
      TokensOfWord(words[0], "\n");
      assert forall i :: 0 <= i < |words[0]| ==> words[0][i] != '\n';
    } else {
      TokensOfJoin(words[1..]);
      var rest := Join(words[1..]) + "\n";
      assert Join(words) + "\n" == words[0] + (" " + rest);
      TokensOfWord(words[0], " " + rest);
      TokensOfSpace(' ', rest);
      assert forall i :: 0 <= i < |words[0]| ==> words[0][i] != '\n';
    }
  }

  function Spaces(k: nat): string {
    if k == 0 then [] else " " + Spaces(k - 1)
  }

  lemma {:induction false} TokensOfSpaces(k: nat, rest: string)
    ensures Tokens(Spaces(k) + rest) == Tokens(rest) && '\n' !in Spaces(k) && |Spaces(k)| == k
  {
    if k == 0 {
      assert Spaces(k) + rest == rest;
    } else {
      TokensOfSpaces(k - 1, rest);
      assert Spaces(k) + rest == " " + (Spaces(k - 1) + rest);
      TokensOfSpace(' ', Spaces(k - 1) + rest);
    }
  }

  /** Left-justified in ten columns. */
  function Pad10(s: string): string {
    s + Spaces(if |s| < 10 then 10 - |s| else 0)
  }

  function HeaderLine(ngates: nat, nwires: nat): string {
    Pad10(Dec(ngates)) + " " + Dec(nwires)
  }

  lemma Reassoc<T>(a: seq<T>, b: seq<T>, c: seq<T>)
    ensures (a + b) + c == a + (b + c)
  {
  }

  lemma TwoColumns(g: string, k: nat, w: string)
    requires IsWord(g) && IsWord(w)
    ensures Tokens((g + Spaces(k) + " " + w) + "\n") == [g, w]
  {
    TokensOfNewline();
    TokensOfWord(w, "\n");
    TokensOfSpace(' ', w + "\n");
    TokensOfSpaces(k, " " + (w + "\n"));
    var rest := Spaces(k) + (" " + (w + "\n"));
    assert IsSpace(rest[0]) by { if k > 0 { assert Spaces(k)[0] == ' '; } }
    TokensOfWord(g, rest);
    hide Tokens, Spaces, IsWord;
    var p := g + Spaces(k);
    Reassoc(p + " ", w, "\n");
    Reassoc(p, " ", w + "\n");
    Reassoc(g, Spaces(k), " " + (w + "\n"));
  }

  lemma HeaderTokens(ngates: nat, nwires: nat)
    ensures Tokens(HeaderLine(ngates, nwires) + "\n") == [Dec(ngates), Dec(nwires)]
      && '\n' !in HeaderLine(ngates, nwires)
  {
    var g, w := Dec(ngates), Dec(nwires);
    var k := if |g| < 10 then 10 - |g| else 0;
    DecIsNumeral(ngates);
    DecIsNumeral(nwires);
    hide Dec, Tokens;
    NumeralIsWord(g);
    NumeralIsWord(w);
    TwoColumns(g, k, w);
    TokensOfSpaces(k, []);
  }

  /** The printed words of a gate. */
  function GateWords(g: Gate): seq<string> {
    match g
    case XOR(a, b, out) => ["2", "1", Dec(a), Dec(b), Dec(out), "XOR"]
    case AND(a, b, out) => ["2", "1", Dec(a), Dec(b), Dec(out), "AND"]
    case INV(a, out) => ["1", "1", Dec(a), Dec(out), "INV"]
    case EQ(lit, out) => ["1", "1", if lit then "1" else "0", Dec(out), "EQ"]
    case EQW(a, out) => ["1", "1", Dec(a), Dec(out), "EQW"]
  }

  function GateText(gates: seq<Gate>): string {
    if gates == [] then [] else GateText(gates[..|gates| - 1]) + Join(GateWords(gates[|gates| - 1])) + "\n"
  }

  function SizesLine(v: seq<string>): string {
    Join([Dec(|v|)] + v)
  }

  /** The file after everything but the gates. */
  function Preamble(ngates: nat, nwires: nat, iwv: seq<string>, owv: seq<string>): string {
    HeaderLine(ngates, nwires) + "\n" + SizesLine(iwv) + "\n" + SizesLine(owv) + "\n" + "\n"
  }

  function FileText(ngates: nat, nwires: nat, iwv: seq<string>, owv: seq<string>, gates: seq<Gate>): string {
    Preamble(ngates, nwires, iwv, owv) + GateText(gates)
  }

  // ---------- reading back ----------

  lemma ParseSmall()
    ensures ParseU64("0") == Ok(0) && ParseU64("1") == Ok(1) && ParseU64("2") == Ok(2)
    ensures IsWord("0") && IsWord("1") && IsWord("2")
  {
    assert Dec(0) == "0" && Dec(1) == "1" && Dec(2) == "2";
    ParseDec(0);
    ParseDec(1);
    ParseDec(2);
  }

  lemma ParseAllUnfolds(t: seq<string>, v: seq<nat>)
    requires |t| == |v| > 0 && ParseAll(t[..|t| - 1]) == Ok(v[..|v| - 1]) && ParseU64(t[|t| - 1]) == Ok(v[|v| - 1])
    ensures ParseAll(t) == Ok(v)
  {
    hide ParseU64;
    assert v == v[..|v| - 1] + [v[|v| - 1]];
  }

  lemma {:induction false} ParseAllIs(t: seq<string>, v: seq<nat>)
    requires |t| == |v| && forall i :: 0 <= i < |t| ==> ParseU64(t[i]) == Ok(v[i])
    ensures ParseAll(t) == Ok(v)
    decreases |t|
  {
    hide ParseU64;
    if t == [] {
      assert v == [];
    } else {
      hide ParseAll;
      var k := |t| - 1;
      ParseAllIs(t[..k], v[..k]);
      ParseAllUnfolds(t, v);
    }
  }

  lemma DecIsWord(n: nat)
    ensures IsWord(Dec(n))
  {
    DecIsNumeral(n);
    NumeralIsWord(Dec(n));
  }

  lemma ParseBinary(a: nat, b: nat, y: nat)
    requires a < U64Limit && b < U64Limit && y < U64Limit
    ensures ParseNumbers(["2", "1", Dec(a), Dec(b), Dec(y)], 2) == Ok([a, b, y])
  {
    hide Dec, ParseU64, IsWord;
    ParseSmall();
    ParseDec(a);
    ParseDec(b);
    ParseDec(y);
    ParseAllIs(["2", "1", Dec(a), Dec(b), Dec(y)], [2, 1, a, b, y]);
  }

  lemma ParseUnary(t: string, a: nat, y: nat)
    requires ParseU64(t) == Ok(a) && y < U64Limit
    ensures ParseNumbers(["1", "1", t, Dec(y)], 1) == Ok([a, y])
  {
    hide Dec, ParseU64, IsWord;
    ParseSmall();
    ParseDec(y);
    ParseAllIs(["1", "1", t, Dec(y)], [1, 1, a, y]);
  }

  lemma ParseBinaryLine(a: nat, b: nat, y: nat, kind: string)
    requires a < U64Limit && b < U64Limit && y < U64Limit && (kind == "XOR" || kind == "AND")
    ensures var t := ["2", "1", Dec(a), Dec(b), Dec(y), kind];
      ParseGate(t) == Ok(if kind == "XOR" then XOR(a, b, y) else AND(a, b, y)) && AllWords(t)
  {
    ParseSmall();
    DecIsWord(a);
    DecIsWord(b);
    DecIsWord(y);
    ParseBinary(a, b, y);
    assert IsWord(kind);
    hide Dec, ParseNumbers, IsWord;
    var t := ["2", "1", Dec(a), Dec(b), Dec(y), kind];
    assert t[..|t| - 1] == ["2", "1", Dec(a), Dec(b), Dec(y)];
  }

  lemma ParseUnaryLine(s: string, a: nat, y: nat, kind: string)
    requires ParseU64(s) == Ok(a) && IsWord(s) && y < U64Limit
      && (kind == "INV" || kind == "EQW" || (kind == "EQ" && a <= 1))
    ensures var t := ["1", "1", s, Dec(y), kind];
      ParseGate(t) == Ok(if kind == "INV" then INV(a, y) else if kind == "EQW" then EQW(a, y) else EQ(a == 1, y))
        && AllWords(t)
  {
    ParseSmall();
    DecIsWord(y);
    ParseUnary(s, a, y);
    assert IsWord(kind);
    hide Dec, ParseNumbers, IsWord, ParseU64;
    var t := ["1", "1", s, Dec(y), kind];
    assert t[..|t| - 1] == ["1", "1", s, Dec(y)];
  }

  /** Every gate is read back from its printed words. */
  lemma GateRoundTrip(g: Gate, n: nat)
    requires WiresIn(g, n) && n <= U64Limit
    ensures ParseGate(GateWords(g)) == Ok(g) && AllWords(GateWords(g))
  {
    hide Dec, ParseGate, ParseU64, IsWord, AllWords;
    ParseSmall();
    match g
    case XOR(a, b, out) => ParseBinaryLine(a, b, out, "XOR");
    case AND(a, b, out) => ParseBinaryLine(a, b, out, "AND");
    case INV(a, out) =>
      ParseDec(a);
      DecIsWord(a);
      ParseUnaryLine(Dec(a), a, out, "INV");
    case EQ(lit, out) =>
      ParseUnaryLine(if lit then "1" else "0", if lit then 1 else 0, out, "EQ");
    case EQW(a, out) =>
      ParseDec(a);
      DecIsWord(a);
      ParseUnaryLine(Dec(a), a, out, "EQW");
  }

  function AllGateWords(gates: seq<Gate>): seq<seq<string>> {
    if gates == [] then [] else AllGateWords(gates[..|gates| - 1]) + [GateWords(gates[|gates| - 1])]
  }

  lemma AppendedLine(init: string, line: string, rest: string)
    ensures (init + line + "\n") + rest == init + (line + "\n" + rest)
  {
    Reassoc(init + line, "\n", rest);
    Reassoc(init, line, "\n" + rest);
    Reassoc(line, "\n", rest);
  }

  lemma {:induction false} GateLines(gates: seq<Gate>, n: nat, rest: string)
    requires (forall i :: 0 <= i < |gates| ==> WiresIn(gates[i], n)) && n <= U64Limit
    ensures Lines(GateText(gates) + rest) == AllGateWords(gates) + Lines(rest)
    decreases |gates|
  {
    if gates == [] {
      assert GateText(gates) + rest == rest;
    } else {
      var k := |gates| - 1;
      var words := GateWords(gates[k]);
      var line := Join(words);
      GateRoundTrip(gates[k], n);
      TokensOfJoin(words);
      GateLines(gates[..k], n, line + "\n" + rest);
      FirstLine(line, rest);
      hide Lines, Tokens, GateWords, Join, ParseGate, AllWords, WiresIn;
      AppendedLine(GateText(gates[..k]), line, rest);
      Reassoc(AllGateWords(gates[..k]), [words], Lines(rest));
    }
  }

  lemma ParseGatesSnoc(lines: seq<seq<string>>, gates: seq<Gate>, line: seq<string>)
    requires gates != [] && ParseGates(lines) == Ok(gates[..|gates| - 1]) && ParseGate(line) == Ok(gates[|gates| - 1])
    ensures ParseGates(lines + [line]) == Ok(gates) && |lines| == |gates| - 1
  {
    hide ParseGate, ParseGates;
    var all := lines + [line];
    assert all[..|all| - 1] == lines && all[|all| - 1] == line;
    ParseGatesUnfolds(all);
    assert gates == gates[..|gates| - 1] + [gates[|gates| - 1]];
  }

  lemma ParseGatesUnfolds(lines: seq<seq<string>>)
    requires lines != [] && ParseGates(lines[..|lines| - 1]).Ok? && ParseGate(lines[|lines| - 1]).Ok?
    ensures ParseGates(lines) == Ok(ParseGates(lines[..|lines| - 1]).value + [ParseGate(lines[|lines| - 1]).value])
  {
    hide ParseGate;
  }

  lemma WordsSnoc(gates: seq<Gate>, k: nat)
    requires |gates| == k + 1
    ensures AllGateWords(gates) == AllGateWords(gates[..k]) + [GateWords(gates[k])]
  {
  }

  lemma {:induction false} GatesRoundTrip(gates: seq<Gate>, n: nat)
    requires (forall i :: 0 <= i < |gates| ==> WiresIn(gates[i], n)) && n <= U64Limit
    ensures ParseGates(AllGateWords(gates)) == Ok(gates) && |AllGateWords(gates)| == |gates|
    decreases |gates|
  {
    if gates != [] {
      hide GateWords, ParseGate, ParseGates, WiresIn, AllGateWords, AllWords;
      var k := |gates| - 1;
      GatesRoundTrip(gates[..k], n);
      GateRoundTrip(gates[k], n);
      WordsSnoc(gates, k);
      ParseGatesSnoc(AllGateWords(gates[..k]), gates, GateWords(gates[k]));
    }
  }

  ghost predicate AllNumerals(v: seq<string>) {
    forall i :: 0 <= i < |v| ==> IsNumeral(v[i])
  }

  function Values(v: seq<string>): (r: seq<nat>)
    requires AllNumerals(v)
    ensures |r| == |v| && forall i :: 0 <= i < |v| ==> r[i] == NumeralValue(v[i])
  {
    seq(|v|, i requires 0 <= i < |v| => NumeralValue(v[i]))
  }

  function Total(v: seq<nat>): nat {
    if v == [] then 0 else Total(v[..|v| - 1]) + v[|v| - 1]
  }

  lemma {:induction false} TotalBounds(v: seq<nat>, i: nat)
    requires i < |v|
    ensures v[i] <= Total(v)
    decreases |v|
  {
    if i < |v| - 1 { TotalBounds(v[..|v| - 1], i); }
  }

  lemma SizesParse(count: string, v: seq<string>, values: seq<nat>)
    requires ParseU64(count) == Ok(|v|) && ParseAll(v) == Ok(values)
    ensures ParseSizes([count] + v) == Ok(values)
  {
    hide ParseU64, ParseAll;
    var t := [count] + v;
    assert t[1..] == v && t[0] == count && |t| - 1 == |v|;
  }

  lemma NumeralsParse(v: seq<string>)
    requires AllNumerals(v) && Total(Values(v)) < U64Limit
    ensures ParseAll(v) == Ok(Values(v)) && AllWords(v)
  {
    hide ParseU64, NumeralValue, Total, IsWord;
    forall i | 0 <= i < |v| ensures ParseU64(v[i]) == Ok(Values(v)[i]) && IsWord(v[i]) {
      TotalBounds(Values(v), i);
      ParseNumeral(v[i]);
      NumeralIsWord(v[i]);
    }
    ParseAllIs(v, Values(v));
  }

  lemma SizesRoundTrip(v: seq<string>)
    requires AllNumerals(v) && |v| < U64Limit && Total(Values(v)) < U64Limit
    ensures ParseSizes([Dec(|v|)] + v) == Ok(Values(v)) && AllWords([Dec(|v|)] + v)
  {
    hide Dec, ParseU64, IsWord, ParseAll, Total, ParseSizes;
    ParseDec(|v|);
    DecIsWord(|v|);
    NumeralsParse(v);
    SizesParse(Dec(|v|), v, Values(v));
  }

  lemma PreambleNests(h: string, a: string, b: string, rest: string)
    ensures (h + "\n" + a + "\n" + b + "\n" + "\n") + rest == h + "\n" + (a + "\n" + (b + "\n" + ("" + "\n" + rest)))
  {
    var n := "\n";
    Reassoc(h + n + a + n + b + n, n, rest);
    assert n + rest == "" + n + rest;
    var s3 := "" + n + rest;
    Reassoc(h + n + a + n + b, n, s3);
    Reassoc(h + n + a + n, b, n + s3);
    Reassoc(b, n, s3);
    var s2 := b + n + s3;
    Reassoc(h + n + a, n, s2);
    Reassoc(h + n, a, n + s2);
    Reassoc(a, n, s2);
  }

  lemma PreambleLines(ngates: nat, nwires: nat, iwv: seq<string>, owv: seq<string>, rest: string)
    requires AllWords([Dec(|iwv|)] + iwv) && AllWords([Dec(|owv|)] + owv)
    ensures Lines(Preamble(ngates, nwires, iwv, owv) + rest)
         == [[Dec(ngates), Dec(nwires)], [Dec(|iwv|)] + iwv, [Dec(|owv|)] + owv, []] + Lines(rest)
  {
    var h, a, b := HeaderLine(ngates, nwires), SizesLine(iwv), SizesLine(owv);
    HeaderTokens(ngates, nwires);
    TokensOfJoin([Dec(|iwv|)] + iwv);
    TokensOfJoin([Dec(|owv|)] + owv);
    PreambleNests(h, a, b, rest);
    FourLines(h, a, b, rest);
  }

  lemma FourLines(h: string, a: string, b: string, rest: string)
    requires '\n' !in h && '\n' !in a && '\n' !in b
    ensures Lines(h + "\n" + (a + "\n" + (b + "\n" + ("" + "\n" + rest))))
         == [Tokens(h + "\n"), Tokens(a + "\n"), Tokens(b + "\n"), []] + Lines(rest)
  {
    TokensOfNewline();
    assert "" + "\n" == "\n";
    hide Lines, Tokens;
    var s3 := "" + "\n" + rest;
    var s2 := b + "\n" + s3;
    FirstLine("", rest);
    FirstLine(b, s3);
    FirstLine(a, s2);
    FirstLine(h, a + "\n" + s2);
    FourInFront(Tokens(h + "\n"), Tokens(a + "\n"), Tokens(b + "\n"), [], Lines(rest));
  }

  lemma FourInFront<T>(x: T, y: T, z: T, u: T, rest: seq<T>)
    ensures [x] + ([y] + ([z] + ([u] + rest))) == [x, y, z, u] + rest
  {
  }

  lemma WholeFileParses(g: string, n: nat, w: string, nwires: nat, ins: seq<string>, iv: seq<nat>, outs: seq<string>,
                        ov: seq<nat>, body: seq<seq<string>>, gates: seq<Gate>)
    requires ParseU64(g) == Ok(n) && ParseU64(w) == Ok(nwires) && ParseSizes(ins) == Ok(iv)
      && ParseSizes(outs) == Ok(ov)
    requires |body| == n && ParseGates(body) == Ok(gates)
    ensures ParseLines([[g, w], ins, outs, []] + body) == Ok(Circuit(n, nwires, iv, ov, gates))
  {
    hide ParseU64, ParseSizes, ParseGates;
    var lines := [[g, w], ins, outs, []] + body;
    assert |lines| == 4 + n && lines[0] == [g, w] && lines[1] == ins && lines[2] == outs && lines[3] == [];
    assert lines[4..4 + n] == body && lines[4 + n..] == [];
    PairParses(g, n, w, nwires);
    hide ParsePair;
  }

  lemma PairParses(g: string, n: nat, w: string, nwires: nat)
    requires ParseU64(g) == Ok(n) && ParseU64(w) == Ok(nwires)
    ensures ParsePair([g, w]) == Ok((n, nwires))
  {
  }

  /** The reader parses the printed file back to exactly its gates and sizes. */
  lemma FileRoundTrip(nwires: nat, iwv: seq<string>, owv: seq<string>, gates: seq<Gate>)
    requires nwires < U64Limit && |gates| < U64Limit && |iwv| < U64Limit && |owv| < U64Limit
    requires AllNumerals(iwv) && AllNumerals(owv) && Total(Values(iwv)) < U64Limit && Total(Values(owv)) < U64Limit
    requires forall i :: 0 <= i < |gates| ==> WiresIn(gates[i], nwires)
    ensures ParseLines(Lines(FileText(|gates|, nwires, iwv, owv, gates)))
         == Ok(Circuit(|gates|, nwires, Values(iwv), Values(owv), gates))
  {
    hide Lines, Dec, ParseSizes, ParseGates, AllGateWords, GateText, Preamble, ParseU64, AllWords, Total;
    SizesRoundTrip(iwv);
    SizesRoundTrip(owv);
    PreambleLines(|gates|, nwires, iwv, owv, GateText(gates));
    GateLines(gates, nwires, []);
    GatesRoundTrip(gates, nwires);
    ParseDec(|gates|);
    ParseDec(nwires);
    NoLines();
    assert GateText(gates) + [] == GateText(gates) && AllGateWords(gates) + [] == AllGateWords(gates);
    WholeFileParses(Dec(|gates|), |gates|, Dec(nwires), nwires, [Dec(|iwv|)] + iwv, Values(iwv), [Dec(|owv|)] + owv,
      Values(owv), AllGateWords(gates), gates);
  }

  lemma NoLines()
    ensures Lines([]) == []
  {
  }

  // ---------- the program ----------

  /** What the translator accepts: distinct names, sizes that add up, at least one gate and
      every gate emitted. */
  ghost predicate Accepts(m: Module)
    requires AllNumerals(m.iwv) && AllNumerals(m.owv)
  {
    && Distinct(AllWires(m))
    && Total(Values(m.iwv)) == |m.inputs| && Total(Values(m.owv)) == |m.outputs|
    && m.gates != []
    && Emission(m).Ok?
  }

  /** The emitted gates and the final flags. */
  ghost function Emission(m: Module): Result<(seq<Gate>, seq<bool>)>
    requires Distinct(AllWires(m))
  {
    NameTableNumbers(AllWires(m));
    EmitAll(NameTable(AllWires(m)), InitiallyValid(m), m.gates)
  }

  /** Overwriting part of a file in place, extending it where needed. */
  function Overwrite(text: string, at: nat, s: string): string
    requires at <= |text|
  {
    text[..at] + s + (if at + |s| < |text| then text[at + |s|..] else [])
  }

  class Program {
    var currentWire: nat
    var wires: Names
    var validWires: seq<bool>
    var bfile: string
    var gatesCount: nat
    ghost var registered: seq<string>
    ghost var emitted: seq<Gate>

    constructor ()
      ensures currentWire == 0 && wires == map[] && validWires == [] && bfile == [] && gatesCount == 0
      ensures registered == [] && emitted == []
    {
      currentWire, wires, validWires, bfile, gatesCount := 0, map[], [], [], 0;
      registered, emitted := [], [];
    }

    ghost predicate Numbered()
      reads this`registered, this`wires, this`currentWire
    {
      Distinct(registered) && wires == NameTable(registered) && currentWire == |registered|
    }

    method RegisterWire(name: string) returns (ok: bool)
      requires Numbered()
      modifies this`wires, this`currentWire, this`registered
      ensures ok <==> name !in old(registered)
      ensures ok ==> Numbered() && registered == old(registered) + [name]
    {
      NameTableIndex(registered);
      if name in wires { return false; }
      wires := wires[name := currentWire];
      currentWire := currentWire + 1;
      registered := registered + [name];
      assert registered[..|registered| - 1] == old(registered);
      ok := true;
    }

    method RegisterWires(list: seq<string>) returns (ok: bool)
      requires Numbered()
      modifies this`wires, this`currentWire, this`registered
      ensures ok <==> Distinct(old(registered) + list)
      ensures ok ==> Numbered() && registered == old(registered) + list
    {
      ghost var start := registered;
      for i := 0 to |list|
        invariant Numbered() && registered == start + list[..i]
      {
        ok := RegisterWire(list[i]);
        if !ok {
          RepeatedName(start, list, i);
          return;
        }
      }
      assert list[..|list|] == list;
      ok := true;
    }

    /** The number of the wire on a pin, with the check its label asks for. */
    method Wire(g: VGate, lbl: string) returns (r: Result<nat>)
      requires Numbered() && |validWires| == |registered| && lbl in ["A", "B", "Y"]
      modifies this`validWires
      ensures InRange(wires, old(validWires))
      ensures lbl != "Y" ==> r == Source(wires, old(validWires), g, lbl) && validWires == old(validWires)
      ensures lbl == "Y" ==> r == Target(wires, old(validWires), g)
      ensures lbl == "Y" && r.Ok? ==> validWires == old(validWires)[r.value := true]
      ensures |validWires| == |old(validWires)|
    {
      NameTableNumbers(registered);
      var i := 0;
      while i < |g.pins|
        invariant 0 <= i <= |g.pins| && FindPin(g.pins, lbl) == FindPin(g.pins[i..], lbl)
        invariant validWires == old(validWires)
      {
        if g.pins[i].0 == lbl {
          var nm := g.pins[i].1;
          if nm !in wires { return Err; }
          var num := wires[nm];
          if lbl == "Y" {
            if validWires[num] { return Err; }
            validWires := validWires[num := true];
          } else {
            if !validWires[num] { return Err; }
          }
          return Ok(num);
        }
        assert g.pins[i..][1..] == g.pins[i + 1..];
        i := i + 1;
      }
      r := Err;
    }

    /** Prints one gate: the pins are looked up in order, the output last. */
    method EmitGate(g: VGate) returns (ok: bool)
      requires Numbered() && |validWires| == |registered|
      modifies this`validWires, this`bfile, this`emitted
      ensures InRange(wires, old(validWires)) && |validWires| == |old(validWires)|
      ensures ok <==> Emit(wires, old(validWires), g).Ok?
      ensures ok ==> var (gate, valid) := Emit(wires, old(validWires), g).value;
        emitted == old(emitted) + [gate] && validWires == valid && bfile == old(bfile) + Join(GateWords(gate)) + "\n"
    {
      hide Numbered, Join, GateWords, Source, Target;
      var a := Wire(g, "A");
      if a.Err? { return false; }
      var b := Ok(0);
      if IsBinary(g.kind) {
        b := Wire(g, "B");
        if b.Err? { return false; }
      }
      var y := Wire(g, "Y");
      if y.Err? { return false; }
      var gate := GateOf(g.kind, a.value, b.value, y.value);
      SameGate(g.kind, a.value, b.value, y.value);
      bfile := bfile + Join(GateWords(gate)) + "\n";
      emitted := emitted + [gate];
      ok := true;
    }

    /** Prints a count and the sizes, adding them up. */
    method EmitSizes(v: seq<string>) returns (total: nat)
      requires AllNumerals(v)
      modifies this`bfile
      ensures bfile == old(bfile) + SizesLine(v) + "\n" && total == Total(Values(v))
    {
      ghost var start := bfile;
      bfile := bfile + Dec(|v|);
      total := 0;
      assert [Dec(|v|)] + v[..0] == [Dec(|v|)];
      for i := 0 to |v|
        invariant bfile == start + Join([Dec(|v|)] + v[..i])
        invariant total == Total(Values(v)[..i])
      {
        bfile := bfile + (" " + v[i]);
        total := total + NumeralValue(v[i]);
        JoinSnoc([Dec(|v|)] + v[..i], v[i]);
        assert [Dec(|v|)] + v[..i] + [v[i]] == [Dec(|v|)] + v[..i + 1];
        Reassoc(start, Join([Dec(|v|)] + v[..i]), " " + v[i]);
        assert Values(v)[..i + 1][..i] == Values(v)[..i];
      }
      assert v[..|v|] == v && Values(v)[..|v|] == Values(v);
      bfile := bfile + "\n";
    }

    /** The first four lines, with a gate count of zero to be patched. */
    method EmitHeader(m: Module) returns (ok: bool)
      requires AllNumerals(m.iwv) && AllNumerals(m.owv) && bfile == []
      modifies this`bfile
      ensures ok <==> Total(Values(m.iwv)) == |m.inputs| && Total(Values(m.owv)) == |m.outputs|
      ensures ok ==> bfile == Preamble(0, |AllWires(m)|, m.iwv, m.owv)
    {
      hide HeaderLine, SizesLine, Total;
      var wiresCount := |m.inputs| + |m.internals| + |m.outputs|;
      bfile := HeaderLine(0, wiresCount) + "\n";
      var tniw := EmitSizes(m.iwv);
      if tniw != |m.inputs| { return false; }
      var tnow := EmitSizes(m.owv);
      if tnow != |m.outputs| { return false; }
      bfile := bfile + "\n";
      ok := true;
    }

    /** After i gates: the program's state is that of EmitAll on them, and they are printed. */
    ghost predicate Progress(gates: seq<VGate>, valid: seq<bool>, start: string, i: nat)
      reads this`registered, this`wires, this`currentWire, this`validWires, this`emitted, this`bfile
    {
      && i <= |gates| && Numbered() && |validWires| == |registered| && InRange(wires, valid)
      && EmitAll(wires, valid, gates[..i]) == Ok((emitted, validWires))
      && bfile == start + GateText(emitted)
    }

    method ParseGate(gates: seq<VGate>, i: nat, ghost valid: seq<bool>, ghost start: string) returns (ok: bool)
      requires i < |gates| && Progress(gates, valid, start, i)
      modifies this`validWires, this`bfile, this`emitted
      ensures ok ==> Progress(gates, valid, start, i + 1)
      ensures !ok ==> EmitAll(wires, valid, gates).Err?
    {
      hide Numbered, Emit, Join, GateWords, GateText, EmitAll, InRange;
      EmitAllSnoc(wires, valid, gates, i, emitted, validWires);
      ghost var before := emitted;
      ok := EmitGate(gates[i]);
      if ok {
        PrintedSnoc(start, before, emitted[|before|]);
      } else {
        EmitAllStops(wires, valid, gates, i + 1);
      }
    }

    method ParseGates(gates: seq<VGate>) returns (ok: bool)
      requires Numbered() && |validWires| == |registered| && emitted == [] && gatesCount == 0
      modifies this`validWires, this`bfile, this`emitted, this`gatesCount
      ensures InRange(wires, old(validWires))
      ensures ok <==> gates != [] && EmitAll(wires, old(validWires), gates).Ok?
      ensures ok ==> gatesCount == |gates| && EmitAll(wires, old(validWires), gates) == Ok((emitted, validWires))
      ensures ok ==> bfile == old(bfile) + GateText(emitted)
    {
      NumberedInRange();
      if gates == [] { return false; }
      ghost var valid, start := validWires, bfile;
      NoProgress(gates);
      hide Progress, EmitAll, Numbered, InRange;
      for i := 0 to |gates|
        invariant Progress(gates, valid, start, i) && gatesCount == i
      {
        ok := ParseGate(gates, i, valid, start);
        if !ok { return; }
        gatesCount := gatesCount + 1;
      }
      FullProgress(gates, valid, start);
      ok := true;
    }

    lemma NumberedInRange()
      requires Numbered() && |validWires| == |registered|
      ensures InRange(wires, validWires)
    {
      NameTableNumbers(registered);
    }

    lemma NoProgress(gates: seq<VGate>)
      requires Numbered() && |validWires| == |registered| && emitted == []
      ensures Progress(gates, validWires, bfile, 0)
    {
      NumberedInRange();
      EmitNone(wires, validWires, gates);
      assert bfile + GateText([]) == bfile;
    }

    lemma FullProgress(gates: seq<VGate>, valid: seq<bool>, start: string)
      requires Progress(gates, valid, start, |gates|)
      ensures InRange(wires, valid) && EmitAll(wires, valid, gates) == Ok((emitted, validWires))
      ensures bfile == start + GateText(emitted)
    {
      assert gates[..|gates|] == gates;
    }

    /** Seek to the start and write the count over the placeholder. */
    method PatchHeader(ngates: nat)
      modifies this`bfile
      ensures bfile == Overwrite(old(bfile), 0, Pad10(Dec(ngates)))
    {
      bfile := Overwrite(bfile, 0, Pad10(Dec(ngates)));
    }

    /** The whole translation: accepts exactly the good modules and leaves the printed form of
        the emitted circuit in the file. */
    method Translate(m: Module) returns (ok: bool)
      requires AllNumerals(m.iwv) && AllNumerals(m.owv)
      requires currentWire == 0 && wires == map[] && validWires == [] && bfile == [] && gatesCount == 0
      requires registered == [] && emitted == []
      modifies this
      ensures ok <==> Accepts(m)
      ensures ok ==> Emission(m) == Ok((emitted, validWires)) && |emitted| == |m.gates|
      ensures ok && |m.gates| < 10000000000 ==> bfile == FileText(|m.gates|, |AllWires(m)|, m.iwv, m.owv, emitted)
    {
      hide FileText, Total, Preamble;
      ok := RegisterWires(m.inputs);
      assert [] + m.inputs == m.inputs;
      if !ok { PrefixRepeats(m.inputs, m.internals + m.outputs, AllWires(m)); return; }
      ok := RegisterWires(m.internals);
      if !ok { PrefixRepeats(m.inputs + m.internals, m.outputs, AllWires(m)); return; }
      ok := RegisterWires(m.outputs);
      if !ok { return; }
      assert registered == AllWires(m);
      ok := EmitHeader(m);
      if !ok { return; }
      validWires := seq(|AllWires(m)|, i requires 0 <= i < |AllWires(m)| => i < |m.inputs|);
      assert validWires == InitiallyValid(m);
      ok := ParseGates(m.gates);
      if !ok { return; }
      if gatesCount < 10000000000 {
        PatchedFile(gatesCount, |AllWires(m)|, m.iwv, m.owv, emitted);
      }
      PatchHeader(gatesCount);
    }
  }

  lemma {:induction false} JoinSnoc(words: seq<string>, w: string)
    requires words != []
    ensures Join(words + [w]) == Join(words) + (" " + w)
  {
    var all := words + [w];
    assert all[1..] == words[1..] + [w];
    if |words| == 1 {
      assert all[1..] == [w] && Join([w]) == w;
      Reassoc(words[0], " ", w);
    } else {
      JoinSnoc(words[1..], w);
      Reassoc(words[0] + " ", Join(words[1..]), " " + w);
    }
  }

  lemma EmitNone(names: Names, valid: seq<bool>, gates: seq<VGate>)
    requires InRange(names, valid)
    ensures EmitAll(names, valid, gates[..0]) == Ok(([], valid))
  {
  }

  lemma EmitAllSnoc(names: Names, valid: seq<bool>, gates: seq<VGate>, i: nat, out: seq<Gate>, mid: seq<bool>)
    requires InRange(names, valid) && i < |gates| && EmitAll(names, valid, gates[..i]) == Ok((out, mid))
    ensures InRange(names, mid)
    ensures EmitAll(names, valid, gates[..i + 1]) == (
      var last := Emit(names, mid, gates[i]);
      if last.Err? then Err else Ok((out + [last.value.0], last.value.1)))
  {
    hide Emit;
    assert gates[..i + 1][..i] == gates[..i];
  }

  lemma PrintedSnoc(start: string, gates: seq<Gate>, g: Gate)
    ensures (start + GateText(gates)) + Join(GateWords(g)) + "\n" == start + GateText(gates + [g])
  {
    hide Join, GateWords;
    var line := Join(GateWords(g));
    assert (gates + [g])[..|gates|] == gates;
    Reassoc(start + GateText(gates), line, "\n");
    Reassoc(start, GateText(gates), line + "\n");
    Reassoc(GateText(gates), line, "\n");
  }

  lemma {:induction false} EmitAllStops(names: Names, valid: seq<bool>, gates: seq<VGate>, k: nat)
    requires InRange(names, valid) && k <= |gates| && EmitAll(names, valid, gates[..k]).Err?
    ensures EmitAll(names, valid, gates).Err?
    decreases |gates|
  {
    if k < |gates| {
      assert gates[..|gates| - 1][..k] == gates[..k];
      EmitAllStops(names, valid, gates[..|gates| - 1], k);
    } else {
      assert gates[..k] == gates;
    }
  }

  lemma PrefixRepeats(a: seq<string>, b: seq<string>, all: seq<string>)
    requires !Distinct(a) && all == a + b
    ensures !Distinct(all)
  {
    var i, j :| 0 <= i < j < |a| && a[i] == a[j];
    assert all[i] == all[j];
  }

  /** Below 10^10 gates the padded count has exactly ten columns. */
  lemma {:induction false} DecLength(n: nat, k: nat)
    requires k >= 1 && n < PowTen(k)
    ensures |Dec(n)| <= k
    decreases k
  {
    assert PowTen(0) == 1;
    assert k == 1 ==> PowTen(k) == 10;
    if n >= 10 {
      DecLength(n / 10, k - 1);
    }
  }

  function PowTen(k: nat): nat {
    if k == 0 then 1 else 10 * PowTen(k - 1)
  }

  lemma PaddedLength(n: nat)
    requires n < 10000000000
    ensures |Pad10(Dec(n))| == 10
  {
    assert PowTen(5) == 100000 && PowTen(10) == 10000000000;
    DecLength(n, 10);
    TokensOfSpaces(10 - |Dec(n)|, []);
  }

  /** Overwriting the placeholder gives the file with the right count. */
  lemma PatchedFile(ngates: nat, nwires: nat, iwv: seq<string>, owv: seq<string>, gates: seq<Gate>)
    requires ngates < 10000000000
    ensures Overwrite(Preamble(0, nwires, iwv, owv) + GateText(gates), 0, Pad10(Dec(ngates)))
         == FileText(ngates, nwires, iwv, owv, gates)
  {
    PaddedLength(0);
    PaddedLength(ngates);
    var z, n := Pad10(Dec(0)), Pad10(Dec(ngates));
    var rest := (" " + Dec(nwires)) + "\n" + SizesLine(iwv) + "\n" + SizesLine(owv) + "\n" + "\n";
    PreambleSplit(0, nwires, iwv, owv);
    PreambleSplit(ngates, nwires, iwv, owv);
    hide Pad10, Dec, SizesLine, GateText, Preamble;
    Reassoc(z, rest, GateText(gates));
    Reassoc(n, rest, GateText(gates));
    var tail := rest + GateText(gates);
    assert (z + tail)[10..] == tail && (z + tail)[..0] == [];
    assert |tail| > 0;
    assert [] + n == n;
  }

  lemma PreambleSplit(ngates: nat, nwires: nat, iwv: seq<string>, owv: seq<string>)
    ensures Preamble(ngates, nwires, iwv, owv)
         == Pad10(Dec(ngates)) + ((" " + Dec(nwires)) + "\n" + SizesLine(iwv) + "\n" + SizesLine(owv) + "\n" + "\n")
  {
    var p, w, n := Pad10(Dec(ngates)), " " + Dec(nwires), "\n";
    var a, b := SizesLine(iwv), SizesLine(owv);
    hide Pad10, Dec, SizesLine;
    Reassoc(p, " ", Dec(nwires));
    Reassoc(p, w, n);
    Reassoc(p, w + n, a);
    Reassoc(p, w + n + a, n);
    Reassoc(p, w + n + a + n, b);
    Reassoc(p, w + n + a + n + b, n);
    Reassoc(p, w + n + a + n + b + n, n);
  }

  // ---------- the theorem ----------

  /** A wire's number. */
  function NumberOf(names: Names, name: string): Result<nat> {
    if name in names then Ok(names[name]) else Err
  }

  /** Some gate's output pin is this wire. */
  ghost predicate DrivenBy(gates: seq<VGate>, name: string) {
    exists i :: 0 <= i < |gates| && FindPin(gates[i].pins, "Y") == Ok(name)
  }

  /** Inputs have the first numbers and outputs the last, in the order declared. */
  ghost predicate NumberedInOrder(m: Module, names: Names, n: nat) {
    && n == |m.inputs| + |m.internals| + |m.outputs|
    && (forall i :: 0 <= i < |m.inputs| ==> NumberOf(names, m.inputs[i]) == Ok(i))
    && (forall j :: 0 <= j < |m.internals| ==> NumberOf(names, m.internals[j]) == Ok(|m.inputs| + j))
    && (forall k :: 0 <= k < |m.outputs| ==> NumberOf(names, m.outputs[k]) == Ok(n - |m.outputs| + k))
  }

  ghost predicate AllHold(env: string -> bool, gates: seq<VGate>) {
    forall i :: 0 <= i < |gates| ==> Holds(env, gates[i])
  }

  /** The last wires carry the outputs that some gate drives. */
  ghost predicate OutputsLast(m: Module, env: string -> bool, vals: seq<bool>) {
    |vals| >= |m.outputs| && forall k :: 0 <= k < |m.outputs| && DrivenBy(m.gates, m.outputs[k]) ==>
      vals[|vals| - |m.outputs| + k] == env(m.outputs[k])
  }

  /** For every module the translator accepts, with fewer than 10^10 gates and wire counts in
      64 bits: the file reads back as the emitted circuit, which has one driver per wire, each
      before its uses; what it computes solves the Verilog equations, and every solution of
      those equations agrees with it on every driven wire, the outputs being the last wires. */
  lemma TranslationIsCorrect(m: Module, env: string -> bool, vals: seq<bool>)
    requires AllNumerals(m.iwv) && AllNumerals(m.owv) && Accepts(m)
    requires |m.gates| < 10000000000 && |AllWires(m)| < U64Limit && |m.iwv| < U64Limit && |m.owv| < U64Limit
    requires |vals| == |AllWires(m)| && forall i :: 0 <= i < |m.inputs| ==> vals[i] == env(m.inputs[i])
    ensures var (gates, valid) := Emission(m).value; var names := NameTable(AllWires(m));
      && ParseLines(Lines(FileText(|gates|, |AllWires(m)|, m.iwv, m.owv, gates)))
           == Ok(Circuit(|m.gates|, |AllWires(m)|, Values(m.iwv), Values(m.owv), gates))
      && WellDriven(gates, |m.inputs|)
      && IsNumbering(names, |vals|) && |valid| == |vals| && NumberedInOrder(m, names, |vals|)
      && (forall i :: 0 <= i < |gates| ==> WiresIn(gates[i], |vals|))
      && AllHold(ReadBack(names, Exec(gates, vals)), m.gates)
      && (AllHold(env, m.gates) ==>
            Carries(names, valid, env, Exec(gates, vals)) && OutputsLast(m, env, Exec(gates, vals)))
  {
    hide Holds, Emit, Carries, ParseLines, Lines, FileText, WellDriven, Total, DrivenBy, NumberedInOrder, OutputsLast;
    var names, start := NameTable(AllWires(m)), InitiallyValid(m);
    NameTableNumbers(AllWires(m));
    NameTableIndex(AllWires(m));
    WireNumbers(m);
    var (gates, valid) := Emission(m).value;
    EmittedInRange(names, start, m.gates);
    FileRoundTrip(|AllWires(m)|, m.iwv, m.owv, gates);
    EmittedWellDriven(names, start, m.gates, |m.inputs|);
    forall i | 0 <= i < |m.gates| ensures Holds(ReadBack(names, Exec(gates, vals)), m.gates[i]) {
      ExecSolves(names, start, m.gates, vals, i);
    }
    if AllHold(env, m.gates) {
      InputsCarried(m, env, vals);
      ExecComputesSolution(names, start, m.gates, env, vals);
      OutputsCarried(m, env, valid, Exec(gates, vals));
    }
  }

  lemma WireNumbers(m: Module)
    requires Distinct(AllWires(m))
    ensures NumberedInOrder(m, NameTable(AllWires(m)), |AllWires(m)|)
  {
    hide NameTable, Distinct, NumberOf;
    var s, names := AllWires(m), NameTable(AllWires(m));
    forall i | 0 <= i < |m.inputs| ensures NumberOf(names, m.inputs[i]) == Ok(i) {
      NumberAt(s, i);
    }
    forall j | 0 <= j < |m.internals| ensures NumberOf(names, m.internals[j]) == Ok(|m.inputs| + j) {
      NumberAt(s, |m.inputs| + j);
    }
    forall k | 0 <= k < |m.outputs| ensures NumberOf(names, m.outputs[k]) == Ok(|s| - |m.outputs| + k) {
      NumberAt(s, |s| - |m.outputs| + k);
    }
  }

  lemma NumberAt(s: seq<string>, i: nat)
    requires Distinct(s) && i < |s|
    ensures NumberOf(NameTable(s), s[i]) == Ok(i)
  {
    NameTableIndex(s);
  }

  lemma OutputsCarried(m: Module, env: string -> bool, valid: seq<bool>, vals: seq<bool>)
    requires Distinct(AllWires(m)) && InRange(NameTable(AllWires(m)), InitiallyValid(m))
      && |vals| == |AllWires(m)| == |valid|
    requires EmitAll(NameTable(AllWires(m)), InitiallyValid(m), m.gates).Ok?
    requires EmitAll(NameTable(AllWires(m)), InitiallyValid(m), m.gates).value.1 == valid
    requires InRange(NameTable(AllWires(m)), valid) && Carries(NameTable(AllWires(m)), valid, env, vals)
    ensures OutputsLast(m, env, vals)
  {
    hide EmitAll, NameTable, Distinct, InitiallyValid;
    WireNumbers(m);
    var names := NameTable(AllWires(m));
    forall k | 0 <= k < |m.outputs| && DrivenBy(m.gates, m.outputs[k])
      ensures vals[|vals| - |m.outputs| + k] == env(m.outputs[k])
    {
      assert NumberOf(names, m.outputs[k]) == Ok(|vals| - |m.outputs| + k);
      var i :| 0 <= i < |m.gates| && FindPin(m.gates[i].pins, "Y") == Ok(m.outputs[k]);
      AllPinsDriven(names, InitiallyValid(m), m.gates, i);
    }
  }

  lemma InputsCarried(m: Module, env: string -> bool, vals: seq<bool>)
    requires Distinct(AllWires(m)) && |vals| == |AllWires(m)|
    requires forall i :: 0 <= i < |m.inputs| ==> vals[i] == env(m.inputs[i])
    ensures InRange(NameTable(AllWires(m)), InitiallyValid(m))
    ensures Carries(NameTable(AllWires(m)), InitiallyValid(m), env, vals)
  {
    var s := AllWires(m);
    NameTableNumbers(s);
    NameTableIndex(s);
    var names := NameTable(s);
    forall n | n in names && InitiallyValid(m)[names[n]] ensures vals[names[n]] == env(n) {
      var i :| 0 <= i < |s| && s[i] == n;
      assert names[n] == i && i < |m.inputs| && s[i] == m.inputs[i];
    }
  }

  lemma SameGate(k: Kind, a: nat, b: nat, y: nat)
    ensures forall c: nat :: !IsBinary(k) ==> GateOf(k, a, b, y) == GateOf(k, a, c, y)
  {
  }

  lemma RepeatedName(start: seq<string>, list: seq<string>, i: nat)
    requires i < |list| && list[i] in start + list[..i]
    ensures !Distinct(start + list)
  {
    var s := start + list[..i];
    var j :| 0 <= j < |s| && s[j] == list[i];
    assert (start + list)[j] == s[j] && (start + list)[|start| + i] == list[i];
  }
}
