/**
 * The text of temperature_table.h: a fixed comment and include block, the
 * length #define, the array declaration, the values ten to a line, and the
 * closing brace. A parser for that shape reads back what was written.
 */
module HeaderFormat {
  import opened Wrappers
  import opened Decimal

  /**
   * One array element as printed: its value, whether a comma follows it, and
   * whether the separator after it is a newline (otherwise a space).
   */
  datatype Cell = Cell(value: int, comma: bool, newline: bool)

  /** What a reader of the header recovers: both declared sizes and the elements. */
  datatype Parsed = Parsed(lengthConstant: nat, arraySize: nat, cells: seq<Cell>)

  /** The comment block, the include and the start of the length definition. */
  const DefinePrefix: string :=
    "/* temperature_table.h\n" +
    " *\n" +
    " * Temperature to ADC value lookup tables.\n" +
    " * This file was generated by generate_temperature_table.py.\n" +
    " */\n" +
    "\n" +
    "#include <stdint.h>\n" +
    "\n" +
    "#define TEMPERATURE_LOOKUP_LENGTH "

  const ArrayPrefix: string := "\n" + "\n" + "static const uint16_t temperature_lookup["

  const ArraySuffix: string := "] = " + "{\n"

  const Closing: string := "};\n" + "\n"

  /** Everything before the first element, for a table of n entries. */
  function Opening(n: nat): string {
    DefinePrefix + NatToDecimal(n) + ArrayPrefix + NatToDecimal(n) + ArraySuffix
  }

  function RenderCell(c: Cell): string {
    IntToDecimal(c.value) + Punctuation(c.comma, c.newline)
  }

  function Render(cs: seq<Cell>): string {
    if cs == [] then "" else RenderCell(cs[0]) + Render(cs[1..])
  }

  /**
   * How the values of a table of n entries are laid out: a comma after all
   * but the one at index n - 1, a newline after every index that is 9 mod 10.
   */
  function Layout(vs: seq<int>, n: int): seq<Cell> {
    seq(|vs|, i requires 0 <= i < |vs| => Cell(vs[i], i != n - 1, i % 10 == 9))
  }

  /** The whole header for the table vs. */
  function HeaderText(vs: seq<int>): string {
    Opening(|vs|) + Render(Layout(vs, |vs|)) + Closing
  }

  /** Occurrences of ch in s. */
  function Count(s: string, ch: char): nat {
    if s == [] then 0 else (if s[0] == ch then 1 else 0) + Count(s[1..], ch)
  }

  // ---------------------------------------------------------------------
  // Reading the header back

  /** A decimal number at the start of s, with the number of characters it takes. */
  function ParseNatPrefix(s: string): (r: Option<(nat, nat)>)
    ensures r.Some? ==> 0 < r.value.1 <= |s|
  {
    var k := DigitRun(s);
    if k == 0 then None else Some((DigitsValue(s[..k]), k))
  }

  /** A decimal integer, possibly negative, at the start of s, with the number of characters it takes. */
  function ParseIntPrefix(s: string): (r: Option<(int, nat)>)
    ensures r.Some? ==> 0 < r.value.1 <= |s|
  {
    if |s| > 0 && s[0] == '-' then
      match ParseNatPrefix(s[1..])
      case None => None
      case Some((m, k)) => Some((-(m as int), k + 1))
    else
      match ParseNatPrefix(s)
      case None => None
      case Some((m, k)) => Some((m, k))
  }

  /** An optional comma and then a space or a newline at the start of s. */
  function ParseSeparator(s: string): (r: Option<(bool, bool, nat)>)
    ensures r.Some? ==> 0 < r.value.2 <= |s|
  {
    var comma := |s| > 0 && s[0] == ',';
    var j := if comma then 1 else 0;
    if j < |s| && (s[j] == ' ' || s[j] == '\n') then Some((comma, s[j] == '\n', j + 1)) else None
  }

  /** One element at the start of s, with the number of characters it takes. */
  function ParseCell(s: string): (r: Option<(Cell, nat)>)
    ensures r.Some? ==> 0 < r.value.1 <= |s|
  {
    match ParseIntPrefix(s)
    case None => None
    case Some((value, i)) =>
      match ParseSeparator(s[i..])
      case None => None
      case Some((comma, newline, j)) => Some((Cell(value, comma, newline), i + j))
  }

  /** s with the prefix p removed, if s starts with p. */
  function StripPrefix(p: string, s: string): (r: Option<string>)
    ensures r.Some? ==> s == p + r.value
  {
    if |p| <= |s| && s[..|p|] == p then Some(s[|p|..]) else None
  }

  /** s with the suffix q removed, if s ends with q. */
  function StripSuffix(q: string, s: string): (r: Option<string>)
    ensures r.Some? ==> s == r.value + q
  {
    if |q| <= |s| && s[|s| - |q|..] == q then Some(s[..|s| - |q|]) else None
  }

  /** The elements that make up all of s. */
  function ParseCells(s: string): Option<seq<Cell>>
    decreases |s|
  {
    if s == [] then Some([])
    else match ParseCell(s)
      case None => None
      case Some((c, k)) =>
        match ParseCells(s[k..])
        case None => None
        case Some(rest) => Some([c] + rest)
  }

  /** Reads a whole header: the two declared sizes and the elements between the braces. */
  function ParseHeader(text: string): Option<Parsed> {
    match StripPrefix(DefinePrefix, text)
    case None => None
    case Some(rest) => ParseDeclarations(rest)
  }

  /** The length constant, then the array declaration. */
  function ParseDeclarations(s: string): Option<Parsed> {
    match ParseNatPrefix(s)
    case None => None
    case Some((lengthConstant, k)) =>
      match StripPrefix(ArrayPrefix, s[k..])
      case None => None
      case Some(rest) => ParseArray(lengthConstant, rest)
  }

  /** The array size, then the initializer. */
  function ParseArray(lengthConstant: nat, s: string): Option<Parsed> {
    match ParseNatPrefix(s)
    case None => None
    case Some((arraySize, k)) =>
      match StripPrefix(ArraySuffix, s[k..])
      case None => None
      case Some(rest) => ParseInitializer(lengthConstant, arraySize, rest)
  }

  /** The elements, up to the closing brace that ends the text. */
  function ParseInitializer(lengthConstant: nat, arraySize: nat, s: string): Option<Parsed> {
    match StripSuffix(Closing, s)
    case None => None
    case Some(body) =>
      match ParseCells(body)
      case None => None
      case Some(cells) => Some(Parsed(lengthConstant, arraySize, cells))
  }

  // ---------------------------------------------------------------------
  // Round trips

  /** A decimal number followed by a non-digit is read back whole. */
  lemma NatPrefixRoundTrip(n: nat, t: string)
    requires t == [] || !IsDigit(t[0])
    ensures ParseNatPrefix(NatToDecimal(n) + t) == Some((n, |NatToDecimal(n)|))
  {
    var d := NatToDecimal(n);
    DigitRunStops(d, t);
    assert (d + t)[..|d|] == d;
    DecimalRoundTrip(n);
  }

  lemma NegativePrefixRoundTrip(x: int, t: string)
    requires x < 0
    requires t == [] || !IsDigit(t[0])
    ensures ParseIntPrefix(IntToDecimal(x) + t) == Some((x, |IntToDecimal(x)|))
  {
    var d := NatToDecimal(-x);
    NatPrefixRoundTrip(-x, t);
    MinusPrefix(d + t, -x, |d|);
    assert IntToDecimal(x) + t == ['-'] + (d + t);
  }

  /** A minus sign before a decimal number negates it. */
  lemma MinusPrefix(u: string, m: nat, k: nat)
    requires ParseNatPrefix(u) == Some((m, k))
    ensures ParseIntPrefix(['-'] + u) == Some((-(m as int), k + 1))
  {
    assert (['-'] + u)[1..] == u;
  }

  lemma NonNegativePrefixRoundTrip(x: int, t: string)
    requires x >= 0
    requires t == [] || !IsDigit(t[0])
    ensures ParseIntPrefix(IntToDecimal(x) + t) == Some((x, |IntToDecimal(x)|))
  {
    var d := NatToDecimal(x);
    assert (d + t)[0] == d[0] && IsDigit(d[0]);
    NatPrefixRoundTrip(x, t);
  }

  /** A decimal integer followed by a non-digit is read back whole. */
  lemma IntPrefixRoundTrip(x: int, t: string)
    requires t == [] || !IsDigit(t[0])
    ensures ParseIntPrefix(IntToDecimal(x) + t) == Some((x, |IntToDecimal(x)|))
  {
    if x < 0 {
      NegativePrefixRoundTrip(x, t);
    } else {
      NonNegativePrefixRoundTrip(x, t);
    }
  }

  /** The characters written after a value. */
  function Punctuation(comma: bool, newline: bool): string {
    (if comma then "," else "") + (if newline then "\n" else " ")
  }

  lemma SeparatorRoundTrip(comma: bool, newline: bool, rest: string)
    ensures ParseSeparator(Punctuation(comma, newline) + rest)
      == Some((comma, newline, |Punctuation(comma, newline)|))
  {
  }

  /** An element followed by anything is read back, and exactly its own characters are consumed. */
  lemma CellRoundTrip(c: Cell, rest: string)
    ensures ParseCell(RenderCell(c) + rest) == Some((c, |RenderCell(c)|))
  {
    var num := IntToDecimal(c.value);
    var punct := Punctuation(c.comma, c.newline);
    var s := RenderCell(c) + rest;
    assert s == num + (punct + rest);
    IntPrefixRoundTrip(c.value, punct + rest);
    assert s[|num|..] == punct + rest;
    SeparatorRoundTrip(c.comma, c.newline, rest);
  }

  /** Rendering any elements and reading them back gives the same elements. */
  lemma {:induction false} RenderRoundTrip(cs: seq<Cell>)
    ensures ParseCells(Render(cs)) == Some(cs)
  {
    if cs != [] {
      var head := RenderCell(cs[0]);
      CellRoundTrip(cs[0], Render(cs[1..]));
      assert (head + Render(cs[1..]))[|head|..] == Render(cs[1..]);
      RenderRoundTrip(cs[1..]);
      assert [cs[0]] + cs[1..] == cs;
    }
  }

  lemma StripPrefixOf(p: string, t: string)
    ensures StripPrefix(p, p + t) == Some(t)
  {
    assert (p + t)[..|p|] == p && (p + t)[|p|..] == t;
  }

  lemma StripSuffixOf(q: string, t: string)
    ensures StripSuffix(q, t + q) == Some(t)
  {
    assert (t + q)[|t|..] == q && (t + q)[..|t|] == t;
  }

  /**
   * Proof helper, no counterpart in the script: associativity of seven
   * concatenated strings, stated over parameters so that the header's
   * literals are not unfolded where it is used.
   */
  lemma Regroup(p1: string, p2: string, p3: string, p4: string, p5: string, p6: string, p7: string)
    ensures p1 + p2 + p3 + p4 + p5 + p6 + p7 == p1 + (p2 + (p3 + (p4 + (p5 + (p6 + p7)))))
  {
  }

  lemma InitializerRoundTrip(lengthConstant: nat, arraySize: nat, cells: seq<Cell>)
    ensures ParseInitializer(lengthConstant, arraySize, Render(cells) + Closing)
      == Some(Parsed(lengthConstant, arraySize, cells))
  {
    StripSuffixOf(Closing, Render(cells));
    RenderRoundTrip(cells);
  }

  /** The header of vs parses to its two sizes and the layout of its values. */
  lemma HeaderParses(vs: seq<int>)
    ensures ParseHeader(HeaderText(vs)) == Some(Parsed(|vs|, |vs|, Layout(vs, |vs|)))
  {
    var n := NatToDecimal(|vs|);
    var body := Render(Layout(vs, |vs|));
    var c := body + Closing;
    var b := n + (ArraySuffix + c);
    var a := n + (ArrayPrefix + b);
    var result := Some(Parsed(|vs|, |vs|, Layout(vs, |vs|)));
    InitializerRoundTrip(|vs|, |vs|, Layout(vs, |vs|));
    assert ParseArray(|vs|, b) == result by {
      NatPrefixRoundTrip(|vs|, ArraySuffix + c);
      assert b[|n|..] == ArraySuffix + c;
      StripPrefixOf(ArraySuffix, c);
    }
    assert ParseDeclarations(a) == result by {
      NatPrefixRoundTrip(|vs|, ArrayPrefix + b);
      assert a[|n|..] == ArrayPrefix + b;
      StripPrefixOf(ArrayPrefix, b);
    }
    Regroup(DefinePrefix, n, ArrayPrefix, n, ArraySuffix, body, Closing);
    StripPrefixOf(DefinePrefix, a);
  }

  /**
   * The header declares |vs| both as the length constant and as the array
   * size, and holds exactly the values of vs in index order, a comma after
   * each but the last and a newline after every tenth.
   */
  lemma HeaderRoundTrip(vs: seq<int>)
    ensures var p := ParseHeader(HeaderText(vs));
      p.Some? && p.value.lengthConstant == |vs| && p.value.arraySize == |vs| &&
      |p.value.cells| == |vs| &&
      forall i :: 0 <= i < |vs| ==>
        p.value.cells[i].value == vs[i] &&
        (p.value.cells[i].comma <==> i != |vs| - 1) &&
        (p.value.cells[i].newline <==> i % 10 == 9)
  {
    HeaderParses(vs);
  }

  // ---------------------------------------------------------------------
  // Separators between the braces

  lemma {:induction false} CountConcat(a: string, b: string, ch: char)
    ensures Count(a + b, ch) == Count(a, ch) + Count(b, ch)
  {
    if a != [] {
      assert (a + b)[1..] == a[1..] + b;
      CountConcat(a[1..], b, ch);
    } else {
      assert a + b == b;
    }
  }

  lemma {:induction false} CountNone(s: string, ch: char)
    requires forall i :: 0 <= i < |s| ==> s[i] != ch
    ensures Count(s, ch) == 0
  {
    if s != [] {
      CountNone(s[1..], ch);
    }
  }

  /** An element carries one comma if it has one, one newline if it has one. */
  lemma CellSeparators(c: Cell)
    ensures Count(RenderCell(c), ',') == (if c.comma then 1 else 0)
    ensures Count(RenderCell(c), '\n') == (if c.newline then 1 else 0)
  {
    var num := IntToDecimal(c.value);
    forall i | 0 <= i < |num| ensures num[i] != ',' && num[i] != '\n' {
      if c.value < 0 && i > 0 {
        assert num[i] == num[1..][i - 1];
      }
    }
    CountNone(num, ',');
    CountNone(num, '\n');
    PunctuationSeparators(c.comma, c.newline);
    CountConcat(num, Punctuation(c.comma, c.newline), ',');
    CountConcat(num, Punctuation(c.comma, c.newline), '\n');
  }

  lemma PunctuationSeparators(comma: bool, newline: bool)
    ensures Count(Punctuation(comma, newline), ',') == (if comma then 1 else 0)
    ensures Count(Punctuation(comma, newline), '\n') == (if newline then 1 else 0)
  {
    var p := Punctuation(comma, newline);
    var sep := if newline then '\n' else ' ';
    assert Count([sep], ',') == 0 by {
      assert [sep][1..] == [];
    }
    assert Count([sep], '\n') == (if newline then 1 else 0) by {
      assert [sep][1..] == [];
    }
    if comma {
      assert p == [','] + [sep];
      assert p[1..] == [sep];
    } else {
      assert p == [sep];
    }
  }

  lemma {:induction false} RenderAppend(a: seq<Cell>, b: seq<Cell>)
    ensures Render(a + b) == Render(a) + Render(b)
  {
    if a != [] {
      assert (a + b)[1..] == a[1..] + b;
      RenderAppend(a[1..], b);
    } else {
      assert a + b == b;
    }
  }

  lemma TensStep(k: nat)
    requires k > 0
    ensures k / 10 == (k - 1) / 10 + (if (k - 1) % 10 == 9 then 1 else 0)
  {
  }

  /** Separators in the first k elements of the layout of a table of |vs| entries. */
  lemma {:induction false} PrefixSeparators(vs: seq<int>, k: nat)
    requires k <= |vs|
    ensures Count(Render(Layout(vs, |vs|)[..k]), ',') == (if k == |vs| && k > 0 then k - 1 else k)
    ensures Count(Render(Layout(vs, |vs|)[..k]), '\n') == k / 10
  {
    var cells := Layout(vs, |vs|);
    if k > 0 {
      PrefixSeparators(vs, k - 1);
      var last := cells[k - 1];
      assert last.comma <==> k != |vs|;
      assert last.newline <==> (k - 1) % 10 == 9;
      assert cells[..k] == cells[..k - 1] + [last];
      RenderAppend(cells[..k - 1], [last]);
      assert Render([last]) == RenderCell(last);
      CellSeparators(last);
      var before := Render(cells[..k - 1]);
      CountConcat(before, RenderCell(last), ',');
      CountConcat(before, RenderCell(last), '\n');
      TensStep(k);
    }
  }

  /**
   * Between the braces there are exactly |vs| - 1 commas and one newline per
   * ten elements.
   */
  lemma BodySeparators(vs: seq<int>)
    requires |vs| >= 1
    ensures Count(Render(Layout(vs, |vs|)), ',') == |vs| - 1
    ensures Count(Render(Layout(vs, |vs|)), '\n') == |vs| / 10
  {
    PrefixSeparators(vs, |vs|);
    assert Layout(vs, |vs|)[..|vs|] == Layout(vs, |vs|);
  }
}
