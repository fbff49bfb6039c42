/** Bristol Fashion circuits and their reader (swanky-dev/bristol-fashion/src/lib.rs). */
module Bristol {
  import opened Wrappers

  datatype Gate =
    | XOR(a: nat, b: nat, out: nat)
    | AND(a: nat, b: nat, out: nat)
    | INV(a: nat, out: nat)
    | EQ(lit: bool, out: nat)
    | EQW(a: nat, out: nat)

  datatype Circuit = Circuit(ngates: nat, nwires: nat, inputSizes: seq<nat>, outputSizes: seq<nat>, gates: seq<Gate>)

  // ---------- characters and words ----------

  /** Unicode's White_Space property. */
  predicate IsSpace(c: char) {
    var n := c as int;
    || 9 <= n <= 13 || n == 0x20 || n == 0x85 || n == 0xA0 || n == 0x1680 || 0x2000 <= n <= 0x200A
    || n == 0x2028 || n == 0x2029 || n == 0x202F || n == 0x205F || n == 0x3000
  }

  predicate IsDigit(c: char) {
    '0' <= c <= '9'
  }

  /** How many characters come before the first space. */
  function WordLength(s: string): (k: nat)
    ensures k <= |s| && (forall i :: 0 <= i < k ==> !IsSpace(s[i])) && (k < |s| ==> IsSpace(s[k]))
  {
    if s == [] || IsSpace(s[0]) then 0 else 1 + WordLength(s[1..])
  }

  /** split_whitespace. */
  function Tokens(s: string): seq<string>
    decreases |s|
  {
    if s == [] then []
    else if IsSpace(s[0]) then Tokens(s[1..])
    else var k := WordLength(s); [s[..k]] + Tokens(s[k..])
  }

  predicate IsWord(w: string) {
    w != [] && forall i :: 0 <= i < |w| ==> !IsSpace(w[i])
  }

  lemma TokensOfWord(w: string, rest: string)
    requires IsWord(w) && (rest == [] || IsSpace(rest[0]))
    ensures Tokens(w + rest) == [w] + Tokens(rest)
  {
    var s := w + rest;
    var k := WordLength(s);
    assert s[0] == w[0];
    assert forall i :: 0 <= i < |w| ==> s[i] == w[i] && !IsSpace(s[i]);
    assert |w| < |s| ==> s[|w|] == rest[0];
    assert k == |w|;
    assert s[..k] == w && s[k..] == rest;
  }

  lemma TokensOfSpace(c: char, rest: string)
    requires IsSpace(c)
    ensures Tokens([c] + rest) == Tokens(rest)
  {
    assert ([c] + rest)[1..] == rest;
  }

  /** The length of the first line, its newline included. */
  function LineLength(s: string): (k: nat)
    ensures k <= |s| && (s != [] ==> k > 0)
  {
    if s == [] then 0 else if s[0] == '\n' then 1 else 1 + LineLength(s[1..])
  }

  /** The token lists of the lines that read_line delivers. */
  function Lines(s: string): seq<seq<string>>
    decreases |s|
  {
    if s == [] then [] else var k := LineLength(s); [Tokens(s[..k])] + Lines(s[k..])
  }

  lemma {:induction false} LineEnds(l: string, rest: string)
    requires '\n' !in l
    ensures LineLength(l + "\n" + rest) == |l| + 1
  {
    var s := l + "\n" + rest;
    if l == [] {
      assert s[0] == '\n';
    } else {
      assert s[0] == l[0] && l[0] in l;
      assert s[1..] == l[1..] + "\n" + rest;
      LineEnds(l[1..], rest);
    }
  }

  lemma FirstLine(l: string, rest: string)
    requires '\n' !in l
    ensures Lines(l + "\n" + rest) == [Tokens(l + "\n")] + Lines(rest)
  {
    var s := l + "\n" + rest;
    LineEnds(l, rest);
    assert s[..|l| + 1] == l + "\n" && s[|l| + 1..] == rest;
  }

  // ---------- numbers ----------

  function DigitChar(d: nat): char
    requires d < 10
  {
    "0123456789"[d]
  }

  function DigitValue(c: char): nat
    requires IsDigit(c)
  {
    (c as int) - ('0' as int)
  }

  /** Decimal notation. */
  function Dec(n: nat): string {
    if n < 10 then [DigitChar(n)] else Dec(n / 10) + [DigitChar(n % 10)]
  }

  predicate IsNumeral(s: string) {
    s != [] && forall i :: 0 <= i < |s| ==> IsDigit(s[i])
  }

  function NumeralValue(s: string): nat
    requires forall i :: 0 <= i < |s| ==> IsDigit(s[i])
  {
    if s == [] then 0 else 10 * NumeralValue(s[..|s| - 1]) + DigitValue(s[|s| - 1])
  }

  lemma NumeralSnoc(s: string, d: nat)
    requires d < 10 && forall i :: 0 <= i < |s| ==> IsDigit(s[i])
    ensures IsNumeral(s + [DigitChar(d)]) && NumeralValue(s + [DigitChar(d)]) == 10 * NumeralValue(s) + d
  {
    assert (s + [DigitChar(d)])[..|s|] == s;
    assert IsDigit(DigitChar(d)) && DigitValue(DigitChar(d)) == d;
  }

  lemma {:induction false} DecIsNumeral(n: nat)
    ensures IsNumeral(Dec(n)) && NumeralValue(Dec(n)) == n
  {
    if n < 10 {
      NumeralSnoc([], n);
      assert [] + [DigitChar(n)] == Dec(n);
    } else {
      DecIsNumeral(n / 10);
      hide NumeralValue, DigitChar, IsDigit;
      NumeralSnoc(Dec(n / 10), n % 10);
    }
  }

  lemma NumeralIsWord(s: string)
    requires IsNumeral(s)
    ensures IsWord(s) && '\n' !in s
  {
  }

  const U64Limit: nat := 0x1_0000_0000_0000_0000

  /** parse::<u64>: an optional plus sign and digits, below 2^64. */
  function ParseU64(s: string): Result<nat> {
    var digits := if |s| > 1 && s[0] == '+' then s[1..] else s;
    if IsNumeral(digits) && NumeralValue(digits) < U64Limit then Ok(NumeralValue(digits)) else Err
  }

  lemma ParseNumeral(s: string)
    requires IsNumeral(s) && NumeralValue(s) < U64Limit
    ensures ParseU64(s) == Ok(NumeralValue(s))
  {
    assert !IsDigit('+');
  }

  lemma ParseDec(n: nat)
    requires n < U64Limit
    ensures ParseU64(Dec(n)) == Ok(n)
  {
    DecIsNumeral(n);
    ParseNumeral(Dec(n));
  }

  // ---------- the grammar ----------

  function ParsePair(t: seq<string>): Result<(nat, nat)> {
    if |t| == 2 && ParseU64(t[0]).Ok? && ParseU64(t[1]).Ok?
    then Ok((ParseU64(t[0]).value, ParseU64(t[1]).value)) else Err
  }

  function ParseAll(t: seq<string>): (r: Result<seq<nat>>)
    ensures r.Ok? ==> |r.value| == |t|
  {
    if t == [] then Ok([])
    else
      var init, last := ParseAll(t[..|t| - 1]), ParseU64(t[|t| - 1]);
      if init.Ok? && last.Ok? then Ok(init.value + [last.value]) else Err
  }

  /** A count followed by that many sizes. */
  function ParseSizes(t: seq<string>): Result<seq<nat>> {
    if |t| >= 1 && ParseU64(t[0]) == Ok(|t| - 1) then ParseAll(t[1..]) else Err
  }

  function ParseNumbers(t: seq<string>, arity: nat): Result<seq<nat>> {
    var r := ParseAll(t);
    if r.Ok? && |t| == arity + 3 && r.value[0] == arity && r.value[1] == 1 then Ok(r.value[2..]) else Err
  }

  /** One gate line: the kind is the last token. */
  function ParseGate(t: seq<string>): Result<Gate> {
    if t == [] then Err
    else
      var kind, fields := t[|t| - 1], t[..|t| - 1];
      if kind == "XOR" || kind == "AND" then
        var r := ParseNumbers(fields, 2);
        if r.Err? then Err
        else if kind == "XOR" then Ok(XOR(r.value[0], r.value[1], r.value[2]))
        else Ok(AND(r.value[0], r.value[1], r.value[2]))
      else if kind == "INV" || kind == "EQW" || kind == "EQ" then
        var r := ParseNumbers(fields, 1);
        if r.Err? then Err
        else if kind == "INV" then Ok(INV(r.value[0], r.value[1]))
        else if kind == "EQW" then Ok(EQW(r.value[0], r.value[1]))
        else if r.value[0] <= 1 then Ok(EQ(r.value[0] == 1, r.value[1]))
        else Err
      else Err
  }

  function ParseGates(lines: seq<seq<string>>): (r: Result<seq<Gate>>)
    ensures r.Ok? ==> |r.value| == |lines|
  {
    if lines == [] then Ok([])
    else
      var init, last := ParseGates(lines[..|lines| - 1]), ParseGate(lines[|lines| - 1]);
      if init.Ok? && last.Ok? then Ok(init.value + [last.value]) else Err
  }

  predicate AllEmpty(lines: seq<seq<string>>) {
    forall i :: 0 <= i < |lines| ==> lines[i] == []
  }

  /** A whole file: header, sizes, an empty line, as many gates as announced, empty lines. */
  function ParseLines(lines: seq<seq<string>>): Result<Circuit> {
    if |lines| < 4 || lines[3] != [] then Err
    else
      var header, ins, outs := ParsePair(lines[0]), ParseSizes(lines[1]), ParseSizes(lines[2]);
      if header.Err? || ins.Err? || outs.Err? || |lines| < 4 + header.value.0 then Err
      else
        var n := header.value.0;
        var gates := ParseGates(lines[4..4 + n]);
        if gates.Err? || !AllEmpty(lines[4 + n..]) then Err
        else Ok(Circuit(n, header.value.1, ins.value, outs.value, gates.value))
  }

  // ---------- the reader ----------

  /** A line's tokens, consumed from the front, with the last one taken from the back. */
  class TokenStream {
    var tokens: seq<string>

    constructor (tokens: seq<string>)
      ensures this.tokens == tokens
    {
      this.tokens := tokens;
    }

    method ReadU64() returns (r: Result<nat>)
      modifies this
      ensures r == if old(tokens) == [] then Err else ParseU64(old(tokens)[0])
      ensures tokens == if old(tokens) == [] then [] else old(tokens)[1..]
    {
      if tokens == [] { return Err; }
      var t := tokens[0];
      tokens := tokens[1..];
      r := ParseU64(t);
    }

    method ReadKind() returns (r: Result<string>)
      modifies this
      ensures old(tokens) == [] ==> r == Err && tokens == []
      ensures old(tokens) != [] ==>
        r == Ok(old(tokens)[|old(tokens)| - 1]) && tokens == old(tokens)[..|old(tokens)| - 1]
    {
      if tokens == [] { return Err; }
      r := Ok(tokens[|tokens| - 1]);
      tokens := tokens[..|tokens| - 1];
    }

    /** Reads n numbers and the end of the line. */
    method ReadNumbers(n: nat) returns (r: Result<seq<nat>>)
      modifies this
      ensures r == if |old(tokens)| == n then ParseAll(old(tokens)) else Err
    {
      ghost var all := tokens;
      var numbers := [];
      for i := 0 to n
        invariant i <= |all| && tokens == all[i..] && ParseAll(all[..i]) == Ok(numbers)
      {
        ghost var before := tokens;
        var x := ReadU64();
        if x.Err? {
          if before != [] && |all| == n { ParseAllFails(all, i); }
          return Err;
        }
        assert all[..i + 1][..i] == all[..i];
        numbers := numbers + [x.value];
      }
      if tokens != [] { return Err; }
      assert all[..n] == all;
      r := Ok(numbers);
    }
  }

  lemma {:induction false} ParseAllFails(t: seq<string>, i: nat)
    requires i < |t| && ParseU64(t[i]).Err?
    ensures ParseAll(t).Err?
    decreases |t|
  {
    if i < |t| - 1 { ParseAllFails(t[..|t| - 1], i); }
  }

  /** Reads a line of numbers that starts with an arity of one output. */
  method ReadFields(tokens: TokenStream, arity: nat) returns (r: Result<seq<nat>>)
    modifies tokens
    ensures r == ParseNumbers(old(tokens.tokens), arity)
  {
    var all := tokens.ReadNumbers(arity + 3);
    if all.Err? || all.value[0] != arity || all.value[1] != 1 { return Err; }
    r := Ok(all.value[2..]);
  }

  method ReadGate(line: seq<string>) returns (r: Result<Gate>)
    ensures r == ParseGate(line)
  {
    var tokens := new TokenStream(line);
    var kind := tokens.ReadKind();
    if kind.Err? { return Err; }
    match kind.value {
      case "XOR" =>
        var f := ReadFields(tokens, 2);
        r := if f.Ok? then Ok(XOR(f.value[0], f.value[1], f.value[2])) else Err;
      case "AND" =>
        var f := ReadFields(tokens, 2);
        r := if f.Ok? then Ok(AND(f.value[0], f.value[1], f.value[2])) else Err;
      case "INV" =>
        var f := ReadFields(tokens, 1);
        r := if f.Ok? then Ok(INV(f.value[0], f.value[1])) else Err;
      case "EQW" =>
        var f := ReadFields(tokens, 1);
        r := if f.Ok? then Ok(EQW(f.value[0], f.value[1])) else Err;
      case "EQ" =>
        var f := ReadFields(tokens, 1);
        r := if f.Ok? && f.value[0] <= 1 then Ok(EQ(f.value[0] == 1, f.value[1])) else Err;
      case _ =>
        r := Err;
    }
  }

  method ReadSizes(line: seq<string>) returns (r: Result<seq<nat>>)
    ensures r == ParseSizes(line)
  {
    var tokens := new TokenStream(line);
    var n := tokens.ReadU64();
    if n.Err? { return Err; }
    r := tokens.ReadNumbers(n.value);
  }

  class Reader {
    var rest: string
    var row: nat

    constructor (text: string)
      ensures rest == text && row == 0
    {
      rest, row := text, 0;
    }

    /** The next line's tokens, or none at the end of the file. */
    method NextLine() returns (r: Result<seq<string>>)
      modifies this
      ensures row == old(row) + 1
      ensures r == if old(rest) == [] then Err else Ok(Lines(old(rest))[0])
      ensures Lines(rest) == if old(rest) == [] then [] else Lines(old(rest))[1..]
      ensures old(rest) != [] ==> |rest| < |old(rest)|
    {
      row := row + 1;
      if rest == [] { return Err; }
      var k := LineLength(rest);
      r := Ok(Tokens(rest[..k]));
      rest := rest[k..];
    }

    method ReadGates(n: nat) returns (r: Result<seq<Gate>>)
      modifies this
      ensures var lines := Lines(old(rest));
        && (|lines| < n ==> r.Err?)
        && (|lines| >= n ==> r == ParseGates(lines[..n]) && (r.Ok? ==> Lines(rest) == lines[n..]))
    {
      ghost var lines := Lines(rest);
      var gates := [];
      for i := 0 to n
        invariant i <= |lines| && Lines(rest) == lines[i..] && ParseGates(lines[..i]) == Ok(gates)
      {
        var line := NextLine();
        if line.Err? { return Err; }
        assert lines[..i + 1][..i] == lines[..i];
        var gate := ReadGate(line.value);
        if gate.Err? {
          if |lines| >= n { ParseGatesFails(lines[..n], i); }
          return Err;
        }
        gates := gates + [gate.value];
      }
      r := Ok(gates);
    }

    /** Everything left must be empty lines. */
    method ReadTrailing() returns (ok: bool)
      modifies this
      ensures ok <==> AllEmpty(Lines(old(rest)))
    {
      hide Lines;
      ghost var lines, i := Lines(rest), 0;
      while true
        invariant i <= |lines| && Lines(rest) == lines[i..] && AllEmpty(lines[..i])
        decreases |rest|
      {
        var line := ExpectLine();
        if line.Err? {
          assert lines[..i] == lines;
          return true;
        }
        assert line.value == lines[i];
        if line.value != [] { return false; }
        i := i + 1;
      }
    }

    method ExpectLine() returns (r: Result<seq<string>>)
      modifies this
      ensures r == if Lines(old(rest)) == [] then Err else Ok(Lines(old(rest))[0])
      ensures Lines(rest) == if Lines(old(rest)) == [] then [] else Lines(old(rest))[1..]
      ensures r.Ok? ==> |rest| < |old(rest)|
    {
      r := NextLine();
    }

    /** The reader accepts exactly the grammar. */
    method Read() returns (r: Result<Circuit>)
      modifies this
      ensures r == ParseLines(Lines(old(rest)))
    {
      hide Lines, ParseAll, ParseSizes, ParseGates, ParsePair, AllEmpty;
      ghost var lines := Lines(rest);
      var line := ExpectLine();
      if line.Err? { return Err; }
      var first := new TokenStream(line.value);
      var header := first.ReadNumbers(2);
      HeaderIsPair(line.value);
      if header.Err? { return Err; }
      line := ExpectLine();
      if line.Err? { return Err; }
      var ins := ReadSizes(line.value);
      if ins.Err? { return Err; }
      line := ExpectLine();
      if line.Err? { return Err; }
      var outs := ReadSizes(line.value);
      if outs.Err? { return Err; }
      line := ExpectLine();
      if line.Err? || line.value != [] { return Err; }
      assert Lines(rest) == lines[4..];
      var n := header.value[0];
      var gates := ReadGates(n);
      assert |lines| >= 4 + n ==> lines[4..][..n] == lines[4..4 + n] && lines[4..][n..] == lines[4 + n..];
      if gates.Err? { return Err; }
      var ok := ReadTrailing();
      if !ok { return Err; }
      r := Ok(Circuit(n, header.value[1], ins.value, outs.value, gates.value));
    }
  }

  lemma HeaderIsPair(t: seq<string>)
    ensures var r := if |t| == 2 then ParseAll(t) else Err; var p := ParsePair(t);
      (r.Ok? <==> p.Ok?) && (r.Ok? ==> p.value == (r.value[0], r.value[1]))
  {
    if |t| == 2 {
      var u := t[..1];
      assert u[..|u| - 1] == [];
      assert ParseAll(u[..|u| - 1]) == Ok([]);
      if ParseU64(u[0]).Ok? { assert ParseAll(u) == Ok([] + [ParseU64(u[0]).value]); }
    }
  }

  lemma {:induction false} ParseGatesFails(lines: seq<seq<string>>, i: nat)
    requires i < |lines| && ParseGate(lines[i]).Err?
    ensures ParseGates(lines).Err?
    decreases |lines|
  {
    if i < |lines| - 1 { ParseGatesFails(lines[..|lines| - 1], i); }
  }
}
