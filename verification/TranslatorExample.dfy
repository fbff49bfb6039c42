/** A worked example of the translator (swanky-dev/zkv/vg2bf.py): a two-gate module and the file
    printed for it, character by character. */
module TranslatorExample {
  import opened Wrappers
  import opened Bristol
  import opened Netlist
  import opened Translator

  /** y is the negation of a and b, over the internal wire w. */
  function NandModule(): Module {
    Module(["a", "b"], ["w"], ["y"], ["2"], ["1"],
           [VGate(KindAND, [("A", "a"), ("B", "b"), ("Y", "w")]), VGate(KindINV, [("A", "w"), ("Y", "y")])])
  }

  lemma NandEmission()
    ensures AllNumerals(NandModule().iwv) && AllNumerals(NandModule().owv) && Accepts(NandModule())
    ensures Emission(NandModule()).value.0 == [AND(0, 1, 2), INV(2, 3)]
  {
    hide NameTable, Distinct, Total, EmitAll;
    NandSizes();
    NandNames();
    NandEmitted();
  }

  lemma NandNames()
    ensures var m := NandModule(); var names := NameTable(AllWires(m));
      && Distinct(AllWires(m)) && InitiallyValid(m) == [true, true, false, false]
      && InRange(names, InitiallyValid(m))
      && NumberOf(names, "a") == Ok(0) && NumberOf(names, "b") == Ok(1) && NumberOf(names, "w") == Ok(2)
      && NumberOf(names, "y") == Ok(3)
  {
    var m := NandModule();
    var s := AllWires(m);
    assert s == ["a", "b", "w", "y"];
    assert Distinct(s) by { assert "a"[0] != "b"[0]; }
    hide NameTable;
    NumberAt(s, 0);
    NumberAt(s, 1);
    NumberAt(s, 2);
    NumberAt(s, 3);
    NameTableNumbers(s);
    assert InitiallyValid(m) == [true, true, false, false];
  }

  lemma NandEmitted()
    ensures var m := NandModule(); var names := NameTable(AllWires(m));
      && InRange(names, InitiallyValid(m))
      && EmitAll(names, InitiallyValid(m), m.gates) == Ok(([AND(0, 1, 2), INV(2, 3)], [true, true, true, true]))
  {
    hide NameTable, FindPin, Distinct;
    NandNames();
    NandPins();
    var m := NandModule();
    var names, start := NameTable(AllWires(m)), InitiallyValid(m);
    var g, h := m.gates[0], m.gates[1];
    var mid := [true, true, true, false];
    assert [true, true, false, false][2 := true] == mid && mid[3 := true] == [true, true, true, true];
    assert Source(names, start, g, "A") == Ok(0) && Source(names, start, g, "B") == Ok(1)
      && Target(names, start, g) == Ok(2);
    assert Source(names, mid, h, "A") == Ok(2) && Target(names, mid, h) == Ok(3);
    assert Emit(names, start, g) == Ok((AND(0, 1, 2), [true, true, true, false]));
    assert Emit(names, [true, true, true, false], h) == Ok((INV(2, 3), [true, true, true, true]));
    hide Emit;
    assert m.gates == [g, h] && m.gates[..1] == [g] && [g][..|[g]| - 1] == [] && [g][0] == g;
    assert [] + [AND(0, 1, 2)] == [AND(0, 1, 2)];
    assert EmitAll(names, start, []) == Ok(([], start));
    assert EmitAll(names, start, [g]) == Ok(([AND(0, 1, 2)], [true, true, true, false]));
    assert [AND(0, 1, 2)] + [INV(2, 3)] == [AND(0, 1, 2), INV(2, 3)];
  }

  lemma NandPins()
    ensures var g, h := NandModule().gates[0].pins, NandModule().gates[1].pins;
      && FindPin(g, "A") == Ok("a") && FindPin(g, "B") == Ok("b") && FindPin(g, "Y") == Ok("w")
      && FindPin(h, "A") == Ok("w") && FindPin(h, "Y") == Ok("y") && FindPin(h, "B") == Err
  {
    var g, h := NandModule().gates[0].pins, NandModule().gates[1].pins;
    assert g[1..] == [("B", "b"), ("Y", "w")] && g[1..][1..] == [("Y", "w")];
    assert h[1..] == [("Y", "y")] && h[1..][1..] == [];
    assert "A" != "B" && "A" != "Y" && "B" != "Y";
  }

  lemma NandSizes()
    ensures AllNumerals(["2"]) && AllNumerals(["1"])
    ensures Total(Values(["2"])) == 2 && Total(Values(["1"])) == 1
  {
    assert IsDigit('2') && IsDigit('1');
    assert NumeralValue("2"[..0]) == 0 && NumeralValue("1"[..0]) == 0;
    assert NumeralValue("2") == 2 && NumeralValue("1") == 1;
    assert Values(["2"]) == [2] && Values(["1"]) == [1];
    assert Total([]) == 0 && [2][..0] == [] && [1][..0] == [];
  }

  /** The printed file: a left-justified gate count in ten columns, the sizes, an empty line and
      one gate per line. */
  lemma NandFile()
    ensures FileText(2, 4, ["2"], ["1"], [AND(0, 1, 2), INV(2, 3)])
         == "2          4\n1 2\n1 1\n\n2 1 0 1 2 AND\n1 1 2 3 INV\n"
  {
    hide Preamble, GateText;
    NandHeader();
    NandGates();
    Glued("2          4\n1 2\n1 1\n\n", "2 1 0 1 2 AND\n1 1 2 3 INV\n", Preamble(2, 4, ["2"], ["1"]),
          GateText([AND(0, 1, 2), INV(2, 3)]));
    assert "2          4\n1 2\n1 1\n\n" + "2 1 0 1 2 AND\n1 1 2 3 INV\n"
        == "2          4\n1 2\n1 1\n\n2 1 0 1 2 AND\n1 1 2 3 INV\n";
  }

  lemma Glued(a: string, b: string, c: string, d: string)
    requires a == c && b == d
    ensures a + b == c + d
  {
  }

  lemma Digits()
    ensures Dec(0) == "0" && Dec(1) == "1" && Dec(2) == "2" && Dec(3) == "3" && Dec(4) == "4"
  {
  }

  lemma NandHeader()
    ensures Preamble(2, 4, ["2"], ["1"]) == "2          4\n1 2\n1 1\n\n"
  {
    Digits();
    assert Spaces(9) == "         ";
    assert Pad10("2") == "2         ";
    assert HeaderLine(2, 4) == "2          4";
    assert SizesLine(["2"]) == "1 2" && SizesLine(["1"]) == "1 1" by {
      assert ["1"] + ["2"] == ["1", "2"] && ["1", "2"][1..] == ["2"] && ["1"] + ["1"] == ["1", "1"]
        && ["1", "1"][1..] == ["1"];
    }
  }

  lemma NandGates()
    ensures GateText([AND(0, 1, 2), INV(2, 3)]) == "2 1 0 1 2 AND\n1 1 2 3 INV\n"
  {
    hide Join, GateWords;
    var g, h := AND(0, 1, 2), INV(2, 3);
    AndLine();
    InvLine();
    assert [g, h][..1] == [g] && [g][..0] == [] && GateText([]) == [];
    assert GateText([g]) == [] + Join(GateWords(g)) + "\n";
    assert GateText([g]) == "2 1 0 1 2 AND\n";
    assert GateText([g, h]) == GateText([g]) + Join(GateWords(h)) + "\n";
  }

  lemma JoinNext(w: string, rest: seq<string>)
    requires rest != []
    ensures Join([w] + rest) == w + " " + Join(rest)
  {
    assert ([w] + rest)[1..] == rest;
  }

  lemma AndLine()
    ensures Join(GateWords(AND(0, 1, 2))) == "2 1 0 1 2 AND"
  {
    Digits();
    var b, a := ["0", "1", "2", "AND"], ["1", "0", "1", "2", "AND"];
    assert GateWords(AND(0, 1, 2)) == ["2"] + a && a == ["1"] + b;
    hide Join, GateWords, Dec;
    AndTail();
    JoinNext("1", b);
    JoinNext("2", a);
  }

  lemma AndTail()
    ensures Join(["0", "1", "2", "AND"]) == "0 1 2 AND"
  {
    var d, c := ["2", "AND"], ["1", "2", "AND"];
    assert ["0"] + c == ["0", "1", "2", "AND"] && c == ["1"] + d && d == ["2"] + ["AND"];
    assert Join(["AND"]) == "AND";
    hide Join;
    JoinNext("2", ["AND"]);
    JoinNext("1", d);
    JoinNext("0", c);
  }

  lemma InvLine()
    ensures Join(GateWords(INV(2, 3))) == "1 1 2 3 INV"
  {
    Digits();
    var c, b, a := ["3", "INV"], ["2", "3", "INV"], ["1", "2", "3", "INV"];
    assert GateWords(INV(2, 3)) == ["1"] + a && a == ["1"] + b && b == ["2"] + c && c == ["3"] + ["INV"];
    assert Join(["INV"]) == "INV";
    hide Join, GateWords;
    JoinNext("3", ["INV"]);
    JoinNext("2", c);
    JoinNext("1", b);
    JoinNext("1", a);
  }
}
