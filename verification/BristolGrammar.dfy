/** The language of the Bristol Fashion reader (swanky-dev/bristol-fashion/src/lib.rs): which
    texts it accepts, and what each of them denotes, clause by clause. */
module BristolGrammar {
  import opened Wrappers
  import opened Bristol

  // ---------- words and lines ----------

  /** White space is the 25 characters of Unicode's White_Space property. */
  lemma SpacesAre(c: char)
    ensures IsSpace(c) <==>
      c as int in {9, 10, 11, 12, 13, 32, 133, 160, 5760, 8192, 8193, 8194, 8195, 8196, 8197, 8198, 8199,
                   8200, 8201, 8202, 8232, 8233, 8239, 8287, 12288}
  {
  }

  /** Words end at white space. With the empty text and single words this fixes the words of
      every text. */
  lemma {:induction false} TokensSplit(s: string, c: char, rest: string)
    requires IsSpace(c)
    ensures Tokens(s + [c] + rest) == Tokens(s) + Tokens(rest)
    decreases |s|
  {
    hide IsSpace, Tokens;
    if s == [] {
      TokensOfSpace(c, rest);
      NoTokens();
      assert s + [c] + rest == [c] + rest;
    } else {
      var k := if IsSpace(s[0]) then 1 else WordLength(s);
      var tail := s[k..] + [c] + rest;
      TokensSplit(s[k..], c, rest);
      assert s + [c] + rest == s[..k] + tail;
      if IsSpace(s[0]) {
        TokensOfSpace(s[0], s[1..]);
        TokensOfSpace(s[0], tail);
        assert s == [s[0]] + s[1..] && s[..k] == [s[0]];
      } else {
        WordFirst(s, k);
        assert tail[0] == if k < |s| then s[k] else c;
        TokensOfWord(s[..k], tail);
      }
    }
  }

  lemma NoTokens()
    ensures Tokens([]) == []
  {
  }

  lemma WordFirst(s: string, k: nat)
    requires s != [] && !IsSpace(s[0]) && k == WordLength(s)
    ensures Tokens(s) == [s[..k]] + Tokens(s[k..])
  {
  }

  lemma TokensOfOneWord(w: string)
    requires w != [] && forall i :: 0 <= i < |w| ==> !IsSpace(w[i])
    ensures Tokens(w) == [w] && Tokens("") == []
  {
    hide IsSpace, Tokens;
    NoTokens();
    TokensOfWord(w, "");
    assert w + "" == w;
  }

  /** Lines end at line feeds, and what follows the last one is a line if it is not empty. */
  lemma LinesSplit(l: string, rest: string)
    requires '\n' !in l
    ensures Lines(l + "\n" + rest) == [Tokens(l)] + Lines(rest)
    ensures Lines(l) == if l == "" then [] else [Tokens(l)]
  {
    hide IsSpace, Tokens;
    NoLineEnd(l);
    assert l[..|l|] == l && l[|l|..] == "";
    FirstLine(l, rest);
    LineFeedIsSpace(l);
  }

  lemma LineFeedIsSpace(l: string)
    ensures Tokens(l + "\n") == Tokens(l)
  {
    assert IsSpace('\n');
    hide IsSpace;
    TokensSplit(l, '\n', "");
    assert l + ['\n'] + "" == l + "\n";
  }

  lemma {:induction false} NoLineEnd(l: string)
    requires '\n' !in l
    ensures LineLength(l) == |l|
  {
    if l != [] {
      assert l[0] in l;
      NoLineEnd(l[1..]);
    }
  }

  // ---------- numbers ----------

  lemma NumeralDigit(s: string, c: char)
    requires forall i :: 0 <= i < |s| ==> IsDigit(s[i])
    ensures IsNumeral(s + [c]) <==> 48 <= c as int <= 57
    ensures IsNumeral(s + [c]) ==> NumeralValue(s + [c]) == 10 * NumeralValue(s) + (c as int - 48)
    ensures NumeralValue("") == 0 && !IsNumeral("")
  {
    assert (s + [c])[..|s|] == s && (s + [c])[|s|] == c;
  }

  /** The numbers below 2^64, with or without one plus sign, and nothing else. */
  lemma NumbersAre(s: string, n: nat)
    ensures ParseU64(s) == Ok(n) <==>
      && n < 18446744073709551616
      && ((IsNumeral(s) && NumeralValue(s) == n)
          || (s != "" && s[0] == '+' && IsNumeral(s[1..]) && NumeralValue(s[1..]) == n))
  {
    if s != "" && s[0] == '+' { assert !IsDigit(s[0]); }
  }

  lemma {:induction false} AllNumbers(t: seq<string>, v: seq<nat>)
    ensures ParseAll(t) == Ok(v) <==> |v| == |t| && forall i :: 0 <= i < |t| ==> ParseU64(t[i]) == Ok(v[i])
  {
    hide ParseU64;
    if t != [] && |v| == |t| {
      var n := |t| - 1;
      AllNumbers(t[..n], v[..n]);
      assert v == v[..n] + [v[n]];
      if ParseAll(t) == Ok(v) {
        assert ParseAll(t[..n]).value == v[..n];
      }
    }
  }

  lemma SizesAre(t: seq<string>, v: seq<nat>)
    ensures ParseSizes(t) == Ok(v) <==>
      |t| == |v| + 1 && ParseU64(t[0]) == Ok(|v|) && forall i :: 0 <= i < |v| ==> ParseU64(t[i + 1]) == Ok(v[i])
  {
    if t != [] {
      AllNumbers(t[1..], v);
      hide ParseAll, ParseU64;
      assert forall i :: 0 <= i < |t| - 1 ==> t[1..][i] == t[i + 1];
    }
  }

  // ---------- gates ----------

  /** The tokens at the front of t are the numbers v. */
  predicate StartsWith(t: seq<string>, v: seq<nat>) {
    |v| <= |t| && forall i :: 0 <= i < |v| ==> ParseU64(t[i]) == Ok(v[i])
  }

  /** A gate line: the number of inputs, the number of outputs, the inputs, the output and the
      kind; an EQ gate has the bit 0 or 1 in place of its input. */
  lemma GatesAre(t: seq<string>, g: Gate)
    ensures ParseGate(t) == Ok(g) <==>
      match g
      case XOR(a, b, out) => |t| == 6 && StartsWith(t, [2, 1] + [a, b, out]) && t[5] == "XOR"
      case AND(a, b, out) => |t| == 6 && StartsWith(t, [2, 1] + [a, b, out]) && t[5] == "AND"
      case INV(a, out) => |t| == 5 && StartsWith(t, [1, 1] + [a, out]) && t[4] == "INV"
      case EQW(a, out) => |t| == 5 && StartsWith(t, [1, 1] + [a, out]) && t[4] == "EQW"
      case EQ(lit, out) => |t| == 5 && StartsWith(t, [1, 1] + [if lit then 1 else 0, out]) && t[4] == "EQ"
  {
    hide ParseU64, ParseAll, StartsWith;
    assert "XOR"[0] == 'X' && "AND"[0] == 'A' && "INV"[0] == 'I' && "EQW"[0] == 'E' && |"EQ"| == 2;
    match g
    case XOR(a, b, out) => FieldsAre(t, 2, [a, b, out]); NumbersRead(t, 2, [a, b, out]);
    case AND(a, b, out) => FieldsAre(t, 2, [a, b, out]); NumbersRead(t, 2, [a, b, out]);
    case INV(a, out) => FieldsAre(t, 1, [a, out]); NumbersRead(t, 1, [a, out]);
    case EQW(a, out) => FieldsAre(t, 1, [a, out]); NumbersRead(t, 1, [a, out]);
    case EQ(lit, out) => FieldsAre(t, 1, [if lit then 1 else 0, out]); NumbersRead(t, 1, [if lit then 1 else 0, out]);
  }

  lemma NumbersRead(t: seq<string>, arity: nat, w: seq<nat>)
    requires |w| == arity + 1
    ensures t != [] ==>
      var r := ParseNumbers(t[..|t| - 1], arity);
      (r.Ok? ==> |r.value| == |w|) && (r == Ok(w) <==> r.Ok? && forall i :: 0 <= i < |w| ==> r.value[i] == w[i])
  {
    hide ParseAll;
    if t != [] {
      var r := ParseNumbers(t[..|t| - 1], arity);
      if r.Ok? && forall i :: 0 <= i < |w| ==> r.value[i] == w[i] { assert r.value == w; }
    }
  }

  lemma FieldsAre(t: seq<string>, arity: nat, w: seq<nat>)
    requires |w| == arity + 1
    ensures t != [] ==>
      (ParseNumbers(t[..|t| - 1], arity) == Ok(w) <==> |t| == arity + 4 && StartsWith(t, [arity, 1] + w))
  {
    if t != [] {
      hide ParseAll, ParseU64;
      var f, v := t[..|t| - 1], [arity, 1] + w;
      AllNumbers(f, v);
      assert v[2..] == w;
      var r := ParseAll(f);
      if ParseNumbers(f, arity) == Ok(w) {
        assert r.value == r.value[..2] + r.value[2..];
        assert r.value == v;
      }
      assert |t| == arity + 4 ==> forall i :: 0 <= i < |f| ==> f[i] == t[i];
    }
  }

  // ---------- files ----------

  /** A file is accepted exactly when it holds the gate and wire counts, the input sizes, the
      output sizes, an empty line, as many gates as announced, and empty lines only after them. */
  lemma FilesAre(lines: seq<seq<string>>, c: Circuit)
    ensures ParseLines(lines) == Ok(c) <==>
      && |lines| >= 4 + c.ngates && |lines[0]| == 2 && StartsWith(lines[0], [c.ngates, c.nwires])
      && ParseSizes(lines[1]) == Ok(c.inputSizes) && ParseSizes(lines[2]) == Ok(c.outputSizes) && lines[3] == []
      && |c.gates| == c.ngates && (forall i :: 0 <= i < c.ngates ==> ParseGate(lines[4 + i]) == Ok(c.gates[i]))
      && (forall i :: 4 + c.ngates <= i < |lines| ==> lines[i] == [])
  {
    hide ParseSizes, ParseGate, ParseGates, ParseU64;
    if |lines| >= 4 + c.ngates {
      AllGates(lines[4..4 + c.ngates], c.gates);
      EmptyFrom(lines, 4 + c.ngates);
      hide AllEmpty;
      var gates := lines[4..4 + c.ngates];
      assert forall i :: 0 <= i < c.ngates ==> gates[i] == lines[4 + i];
    }
  }

  lemma EmptyFrom(lines: seq<seq<string>>, k: nat)
    requires k <= |lines|
    ensures AllEmpty(lines[k..]) <==> forall i :: k <= i < |lines| ==> lines[i] == []
  {
    assert forall i :: k <= i < |lines| ==> lines[i] == lines[k..][i - k];
  }

  lemma {:induction false} AllGates(lines: seq<seq<string>>, v: seq<Gate>)
    ensures ParseGates(lines) == Ok(v) <==>
      |v| == |lines| && forall i :: 0 <= i < |lines| ==> ParseGate(lines[i]) == Ok(v[i])
  {
    hide ParseGate;
    if lines != [] && |v| == |lines| {
      var n := |lines| - 1;
      AllGates(lines[..n], v[..n]);
      assert v == v[..n] + [v[n]];
      if ParseGates(lines) == Ok(v) {
        assert ParseGates(lines[..n]).value == v[..n];
      }
    }
  }
}
