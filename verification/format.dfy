/**
  Textual form of an LDD: one line `<v1 v2 ... >` per vector, in the order of
  the depth-first iterator, wrapped in braces.
 */
module Format {
  import opened Storage
  import opened Iterators

  /** The decimal digit for `d`. */
  function Digit(d: nat): (c: char)
    requires d < 10
    ensures '0' <= c <= '9' && c as int - '0' as int == d
  {
    "0123456789"[d]
  }

  /** The decimal text of a value, as `{}` formats an unsigned integer. */
  function DecimalText(n: nat): (str: string)
    ensures |str| > 0 && forall i | 0 <= i < |str| :: '0' <= str[i] <= '9'
    ensures |str| > 1 ==> str[0] != '0'
    decreases n
  {
    if n < 10 then [Digit(n)] else DecimalText(n / 10) + [Digit(n % 10)]
  }

  /** Reads a string of decimal digits back as a number. */
  function ParseDecimal(str: string): nat
    requires forall i | 0 <= i < |str| :: '0' <= str[i] <= '9'
  {
    if str == [] then 0
    else ParseDecimal(str[..|str| - 1]) * 10 + (str[|str| - 1] as int - '0' as int)
  }

  /** The decimal text of a value reads back as that value. */
  lemma {:induction false} DecimalRoundTrip(n: nat)
    ensures ParseDecimal(DecimalText(n)) == n
    decreases n
  {
    var str := DecimalText(n);
    if n < 10 {
      assert str[..0] == [];
    } else {
      DecimalRoundTrip(n / 10);
      assert str[..|str| - 1] == DecimalText(n / 10);
    }
  }

  /** Each value followed by a space. */
  function ValuesText(vs: Vector): string
  {
    if vs == [] then "" else ValuesText(vs[..|vs| - 1]) + DecimalText(vs[|vs| - 1]) + " "
  }

  /** The line printed for one vector. */
  function Line(vs: Vector): string
  {
    "<" + ValuesText(vs) + ">\n"
  }

  /** The lines of a list of vectors, one after the other. */
  function Lines(xs: seq<Vector>): string
  {
    if xs == [] then "" else Line(xs[0]) + Lines(xs[1..])
  }

  /** The number of occurrences of `c` in `str`. */
  function Occurrences(c: char, str: string): nat
  {
    if str == [] then 0 else (if str[0] == c then 1 else 0) + Occurrences(c, str[1..])
  }

  lemma {:induction false} OccurrencesConcat(c: char, a: string, b: string)
    ensures Occurrences(c, a + b) == Occurrences(c, a) + Occurrences(c, b)
    decreases |a|
  {
    if a != [] {
      assert (a + b)[1..] == a[1..] + b;
      OccurrencesConcat(c, a[1..], b);
    } else {
      assert a + b == b;
    }
  }

  lemma {:induction false} NoOccurrences(c: char, str: string)
    requires forall i | 0 <= i < |str| :: str[i] != c
    ensures Occurrences(c, str) == 0
    decreases |str|
  {
    if str != [] {
      NoOccurrences(c, str[1..]);
    }
  }

  /** The value list of a line holds digits and spaces only, so no line break. */
  lemma {:induction false} ValuesHaveNoBreak(vs: Vector)
    ensures Occurrences('\n', ValuesText(vs)) == 0
    decreases |vs|
  {
    if vs != [] {
      var init := vs[..|vs| - 1];
      ValuesHaveNoBreak(init);
      var text := DecimalText(vs[|vs| - 1]);
      NoOccurrences('\n', text);
      OccurrencesConcat('\n', ValuesText(init), text);
      OccurrencesConcat('\n', ValuesText(init) + text, " ");
    }
  }

  /** Every vector takes exactly one line. */
  lemma {:induction false} LinesCount(xs: seq<Vector>)
    ensures Occurrences('\n', Lines(xs)) == |xs|
    decreases |xs|
  {
    if xs != [] {
      ValuesHaveNoBreak(xs[0]);
      OccurrencesConcat('\n', "<", ValuesText(xs[0]));
      OccurrencesConcat('\n', "<" + ValuesText(xs[0]), ">\n");
      LinesCount(xs[1..]);
      OccurrencesConcat('\n', Line(xs[0]), Lines(xs[1..]));
    }
  }

  lemma {:induction false} LinesConcat(xs: seq<Vector>, ys: seq<Vector>)
    ensures Lines(xs + ys) == Lines(xs) + Lines(ys)
    decreases |xs|
  {
    if xs != [] {
      assert (xs + ys)[1..] == xs[1..] + ys;
      LinesConcat(xs[1..], ys);
    } else {
      assert xs + ys == ys;
    }
  }

  /** The output of one node of a sibling list: its `down` vectors behind the buffer and its value, then the rest. */
  lemma PrintStep(s: Storage, buffer: Vector, n: nat)
    requires Valid(s) && 2 <= n < |s.table|
    ensures Lines(Prefixed(buffer, Enumerate(s.table, n))) ==
      Lines(Prefixed(buffer + [s.table[n].value], Enumerate(s.table, s.table[n].down)))
      + Lines(Prefixed(buffer, Enumerate(s.table, s.table[n].right)))
  {
    var node := s.table[n];
    EnumerateNode(s, n);
    var pd := Prefixed([node.value], Enumerate(s.table, node.down));
    PrefixedConcat(buffer, pd, Enumerate(s.table, node.right));
    PrefixedPrefixed(buffer, [node.value], Enumerate(s.table, node.down));
    LinesConcat(Prefixed(buffer, pd), Prefixed(buffer, Enumerate(s.table, node.right)));
  }

  /** The line for the vector in the buffer: `<`, each value and a space, then `>` and a line break. */
  method WriteLine(buffer: Vector) returns (out: string)
    ensures out == Line(buffer)
  {
    out := "<";
    for i := 0 to |buffer|
      invariant out == "<" + ValuesText(buffer[..i])
    {
      assert buffer[..i + 1][..i] == buffer[..i];
      out := out + DecimalText(buffer[i]) + " ";
    }
    out := out + ">\n";
    assert buffer[..|buffer|] == buffer;
  }

  /**
    `print`: writes one line per vector of `ldd`, each behind the values in
    `buffer`, pushing a node's value before descending into its `down` child
    and popping it afterwards.
   */
  method Print(s: Storage, buffer: Vector, ldd: nat) returns (out: string)
    requires Valid(s) && ldd < |s.table|
    ensures out == Lines(Prefixed(buffer, Enumerate(s.table, ldd)))
    decreases ldd
  {
    if ldd == EmptySet {
      out := "";
      assert Prefixed(buffer, []) == [];
    } else if ldd == EmptyVector {
      out := WriteLine(buffer);
      PrefixedSingle(buffer, []);
      assert buffer + [] == buffer;
    } else {
      var current := ldd;
      var cache := buffer;
      out := "";
      while true
        invariant 2 <= current <= ldd && cache == buffer
        invariant Lines(Prefixed(buffer, Enumerate(s.table, ldd))) == out + Lines(Prefixed(buffer, Enumerate(s.table, current)))
        decreases current
      {
        var node := Get(s, current);
        assert NodeOk(s, current);
        cache := cache + [node.value];
        var lines := Print(s, cache, node.down);
        cache := cache[..|cache| - 1];
        assert cache == buffer;
        PrintRound(s, buffer, ldd, current, out, lines);
        out := out + lines;
        if node.right == EmptySet {
          break;
        }
        current := node.right;
      }
    }
  }

  /**
    One round of the loop of `print`: after the lines of the current node's
    `down` set, what is left to write are the lines of its right sibling,
    and nothing once that sibling is 'false'.
   */
  lemma PrintRound(s: Storage, buffer: Vector, ldd: nat, current: nat, out: string, lines: string)
    requires Valid(s) && 2 <= current < |s.table| && ldd < |s.table|
    requires Lines(Prefixed(buffer, Enumerate(s.table, ldd))) == out + Lines(Prefixed(buffer, Enumerate(s.table, current)))
    requires lines == Lines(Prefixed(buffer + [s.table[current].value], Enumerate(s.table, s.table[current].down)))
    ensures Lines(Prefixed(buffer, Enumerate(s.table, ldd))) ==
      out + lines + Lines(Prefixed(buffer, Enumerate(s.table, s.table[current].right)))
    ensures s.table[current].right == EmptySet ==> Lines(Prefixed(buffer, Enumerate(s.table, ldd))) == out + lines
  {
    PrintStep(s, buffer, current);
    var r := s.table[current].right;
    Regroup(out, lines, Lines(Prefixed(buffer, Enumerate(s.table, r))));
    if r == EmptySet {
      assert Enumerate(s.table, r) == [];
      assert Prefixed(buffer, []) == [];
      assert Lines([]) == "";
    }
  }

  lemma Regroup(a: string, b: string, c: string)
    ensures a + (b + c) == a + b + c
    ensures c == "" ==> a + b + c == a + b
  {
  }

  /**
    `Display::fmt`: the lines of every vector of `ldd` between `{ \n` and `}`;
    there is one line break per vector besides the opening one.
   */
  method Display(s: Storage, ldd: nat) returns (out: string)
    requires Valid(s) && ldd < |s.table|
    ensures out == "{ \n" + Lines(Enumerate(s.table, ldd)) + "}"
    ensures Occurrences('\n', out) == |Denote(s.table, ldd)| + 1
  {
    var body := Print(s, [], ldd);
    PrefixedEmpty(Enumerate(s.table, ldd));
    out := "{ \n" + body + "}";
    LinesCount(Enumerate(s.table, ldd));
    EnumerateCount(s, ldd);
    OccurrencesConcat('\n', "{ \n", body);
    OccurrencesConcat('\n', "{ \n" + body, "}");
  }
}
