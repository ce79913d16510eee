/** The code table of the cipher: 26 lower-case letters and the comma, each
    with a binary code, in the order in which the encoder applies them. */
module Alphabet {
  import opened Bits

  /** The code table, entry by entry. */
  const Codes: seq<(char, string)> := [
    ('a', "111"),
    ('b', "1101"),
    ('c', "11001"),
    ('d', "1011"),
    ('e', "10101"),
    ('f', "101001"),
    ('g', "10011"),
    ('h', "100101"),
    ('i', "1001001"),
    ('j', "0111"),
    ('k', "01101"),
    ('l', "011001"),
    ('m', "01011"),
    ('n', "010101"),
    ('o', "0101001"),
    ('p', "010011"),
    ('q', "0100101"),
    ('r', "01001001"),
    ('s', "00111"),
    ('t', "001101"),
    ('u', "0011001"),
    ('v', "001011"),
    ('w', "0010101"),
    ('x', "00101001"),
    ('y', "0010011"),
    ('z', "00100101"),
    (',', "001001001")
  ]

  /** The characters the normaliser keeps: the class of the `notAllowed`
      regular expression, negated. */
  predicate Allowed(c: char) {
    ('a' <= c <= 'z') || c == ','
  }

  /** True iff every character of `s` is one the normaliser keeps. */
  predicate OverAlphabet(s: string) {
    forall i :: 0 <= i < |s| ==> Allowed(s[i])
  }

  /** The symbol of table entry `i`: the letters in order, then the comma. */
  function SymbolAt(i: nat): char
    requires i < 27
  {
    if i < 26 then (('a' as int) + i) as char else ','
  }

  /** Position of an allowed character in the table. */
  function IndexOf(c: char): (i: nat)
    requires Allowed(c)
    ensures i < 27 && SymbolAt(i) == c
  {
    if c == ',' then 26 else (c as int) - ('a' as int)
  }

  /** A group: `d` zeros and a closing '1'. */
  function Group(d: nat): (g: string)
    requires d < 3
    ensures |g| == d + 1 && g[d] == '1'
    ensures forall k :: 0 <= k < d ==> g[k] == '0'
  {
    if d == 0 then "1" else if d == 1 then "01" else "001"
  }

  /** The code built from the base-3 digits of `i`, most significant first. */
  function TripleCode(i: nat): string
    requires i < 27
  {
    Group(i / 9) + Group(i / 3 % 3) + Group(i % 3)
  }

  // The literal table and `TripleCode` are two definitions of the same codes
  // on purpose. The literal is the table as the generator writes it; the
  // base-3 form is what the proofs reason with, because any proof that looks
  // into the 27-entry literal is too expensive for the solver. `TableShape`
  // ties the two together once. It is split into nine lemmas of three entries
  // each for the same reason, and `CodeOf` (below) is therefore defined by
  // `TripleCode` rather than by indexing `Codes`; `CodeOfEntry` states that
  // the two agree.

  /** Entries 0 to 2: codes that start with "1" then "1". */
  lemma ShapeAtoC()
    ensures |Codes| == 27
    ensures forall i :: 0 <= i < 3 ==> Codes[i] == (SymbolAt(i), TripleCode(i))
  {
    assert Codes[0].0 == SymbolAt(0) && Codes[0].1 == TripleCode(0);
    assert Codes[1].0 == SymbolAt(1) && Codes[1].1 == TripleCode(1);
    assert Codes[2].0 == SymbolAt(2) && Codes[2].1 == TripleCode(2);
  }

  /** Entries 3 to 5: codes that start with "1" then "01". */
  lemma ShapeDtoF()
    ensures |Codes| == 27
    ensures forall i :: 3 <= i < 6 ==> Codes[i] == (SymbolAt(i), TripleCode(i))
  {
    assert Codes[3].0 == SymbolAt(3) && Codes[3].1 == TripleCode(3);
    assert Codes[4].0 == SymbolAt(4) && Codes[4].1 == TripleCode(4);
    assert Codes[5].0 == SymbolAt(5) && Codes[5].1 == TripleCode(5);
  }

  /** Entries 6 to 8: codes that start with "1" then "001". */
  lemma ShapeGtoI()
    ensures |Codes| == 27
    ensures forall i :: 6 <= i < 9 ==> Codes[i] == (SymbolAt(i), TripleCode(i))
  {
    assert Codes[6].0 == SymbolAt(6) && Codes[6].1 == TripleCode(6);
    assert Codes[7].0 == SymbolAt(7) && Codes[7].1 == TripleCode(7);
    assert Codes[8].0 == SymbolAt(8) && Codes[8].1 == TripleCode(8);
  }

  /** Entries 9 to 11: codes that start with "01" then "1". */
  lemma ShapeJtoL()
    ensures |Codes| == 27
    ensures forall i :: 9 <= i < 12 ==> Codes[i] == (SymbolAt(i), TripleCode(i))
  {
    assert Codes[9].0 == SymbolAt(9) && Codes[9].1 == TripleCode(9);
    assert Codes[10].0 == SymbolAt(10) && Codes[10].1 == TripleCode(10);
    assert Codes[11].0 == SymbolAt(11) && Codes[11].1 == TripleCode(11);
  }

  /** Entries 12 to 14: codes that start with "01" then "01". */
  lemma ShapeMtoO()
    ensures |Codes| == 27
    ensures forall i :: 12 <= i < 15 ==> Codes[i] == (SymbolAt(i), TripleCode(i))
  {
    assert Codes[12].0 == SymbolAt(12) && Codes[12].1 == TripleCode(12);
    assert Codes[13].0 == SymbolAt(13) && Codes[13].1 == TripleCode(13);
    assert Codes[14].0 == SymbolAt(14) && Codes[14].1 == TripleCode(14);
  }

  /** Entries 15 to 17: codes that start with "01" then "001". */
  lemma ShapePtoR()
    ensures |Codes| == 27
    ensures forall i :: 15 <= i < 18 ==> Codes[i] == (SymbolAt(i), TripleCode(i))
  {
    assert Codes[15].0 == SymbolAt(15) && Codes[15].1 == TripleCode(15);
    assert Codes[16].0 == SymbolAt(16) && Codes[16].1 == TripleCode(16);
    assert Codes[17].0 == SymbolAt(17) && Codes[17].1 == TripleCode(17);
  }

  /** Entries 18 to 20: codes that start with "001" then "1". */
  lemma ShapeStoU()
    ensures |Codes| == 27
    ensures forall i :: 18 <= i < 21 ==> Codes[i] == (SymbolAt(i), TripleCode(i))
  {
    assert Codes[18].0 == SymbolAt(18) && Codes[18].1 == TripleCode(18);
    assert Codes[19].0 == SymbolAt(19) && Codes[19].1 == TripleCode(19);
    assert Codes[20].0 == SymbolAt(20) && Codes[20].1 == TripleCode(20);
  }

  /** Entries 21 to 23: codes that start with "001" then "01". */
  lemma ShapeVtoX()
    ensures |Codes| == 27
    ensures forall i :: 21 <= i < 24 ==> Codes[i] == (SymbolAt(i), TripleCode(i))
  {
    assert Codes[21].0 == SymbolAt(21) && Codes[21].1 == TripleCode(21);
    assert Codes[22].0 == SymbolAt(22) && Codes[22].1 == TripleCode(22);
    assert Codes[23].0 == SymbolAt(23) && Codes[23].1 == TripleCode(23);
  }

  /** Entries 24 to 26: codes that start with "001" then "001". */
  lemma ShapeYtoComma()
    ensures |Codes| == 27
    ensures forall i :: 24 <= i < 27 ==> Codes[i] == (SymbolAt(i), TripleCode(i))
  {
    assert Codes[24].0 == SymbolAt(24) && Codes[24].1 == TripleCode(24);
    assert Codes[25].0 == SymbolAt(25) && Codes[25].1 == TripleCode(25);
    assert Codes[26].0 == SymbolAt(26) && Codes[26].1 == TripleCode(26);
  }

  /** Entry `i` of the table is the symbol `SymbolAt(i)` with the code whose
      three groups spell `i` in base 3: the table lists every triple over
      {"1", "01", "001"} exactly once. */
  lemma TableShape()
    ensures |Codes| == 27
    ensures forall i :: 0 <= i < 27 ==> Codes[i] == (SymbolAt(i), TripleCode(i))
  {
    ShapeAtoC();
    ShapeDtoF();
    ShapeGtoI();
    ShapeJtoL();
    ShapeMtoO();
    ShapePtoR();
    ShapeStoU();
    ShapeVtoX();
    ShapeYtoComma();
  }

  /** A group is recognised from any string it starts: if one string that
      starts with group `a` is a prefix of another that starts with group `b`,
      the groups are the same and the rests are again prefix-related. */
  lemma GroupsDetermined(a: nat, b: nat, x: string, y: string)
    requires a < 3 && b < 3
    requires Group(a) + x <= Group(b) + y
    ensures a == b && x <= y
  {
    var u, v := Group(a) + x, Group(b) + y;
    assert u[a] == v[a];
    assert b < |u| ==> u[b] == v[b];
    assert forall k :: 0 <= k < |x| ==> x[k] == u[a + 1 + k] == v[a + 1 + k] == y[k];
  }

  /** The three base-3 digits of a table position give the position back. */
  lemma DigitsDetermineIndex(i: nat, j: nat)
    requires i < 27 && j < 27
    requires i / 9 == j / 9 && i / 3 % 3 == j / 3 % 3 && i % 3 == j % 3
    ensures i == j
  {
  }

  /** No code of the table is a prefix of the code of another entry. */
  lemma CodesPrefixFree()
    ensures |Codes| == 27
    ensures forall i, j :: 0 <= i < 27 && 0 <= j < 27 && Codes[i].1 <= Codes[j].1 ==> i == j
  {
    TableShape();
    forall i, j | 0 <= i < 27 && 0 <= j < 27 && Codes[i].1 <= Codes[j].1
      ensures i == j
    {
      TripleCodePrefix(i, j);
    }
  }

  lemma TripleCodePrefix(i: nat, j: nat)
    requires i < 27 && j < 27
    requires TripleCode(i) <= TripleCode(j)
    ensures i == j
  {
    var a, b, c := i / 9, i / 3 % 3, i % 3;
    var a', b', c' := j / 9, j / 3 % 3, j % 3;
    TripleSplit(i);
    TripleSplit(j);
    GroupTriplesDetermined(a, b, c, a', b', c');
    DigitsDetermineIndex(i, j);
  }

  lemma TripleSplit(i: nat)
    requires i < 27
    ensures TripleCode(i) == Group(i / 9) + (Group(i / 3 % 3) + Group(i % 3))
  {
  }

  /** A concatenation of three groups that is a prefix of another such
      concatenation has the same three groups. */
  lemma GroupTriplesDetermined(a: nat, b: nat, c: nat, a': nat, b': nat, c': nat)
    requires a < 3 && b < 3 && c < 3 && a' < 3 && b' < 3 && c' < 3
    requires Group(a) + (Group(b) + Group(c)) <= Group(a') + (Group(b') + Group(c'))
    ensures a == a' && b == b' && c == c'
  {
    GroupsDetermined(a, a', Group(b) + Group(c), Group(b') + Group(c'));
    GroupsDetermined(b, b', Group(c), Group(c'));
    assert Group(c) + [] <= Group(c') + [];
    GroupsDetermined(c, c', [], []);
  }

  /** Distinct table positions hold distinct symbols. */
  lemma SymbolsDistinct(i: nat, j: nat)
    requires i < 27 && j < 27 && SymbolAt(i) == SymbolAt(j)
    ensures i == j
  {
  }

  /** The code of an allowed character: the triple of groups that spells its
      table position in base 3. It is made of '0' and '1' only, is 3 to 9
      characters long and ends in '1'. */
  function CodeOf(c: char): (w: string)
    requires Allowed(c)
    ensures IsBits(w)
    ensures 3 <= |w| <= 9 && w[|w| - 1] == '1'
  {
    TripleCodeFacts(IndexOf(c));
    TripleCode(IndexOf(c))
  }

  /** The table entry at the position of an allowed character holds that
      character and its code. */
  lemma CodeOfEntry(c: char)
    requires Allowed(c)
    ensures |Codes| == 27 && Codes[IndexOf(c)] == (c, CodeOf(c))
  {
    TableShape();
  }

  /** Every code is made of '0' and '1', is 3 to 9 characters long and ends in '1'. */
  lemma TripleCodeFacts(i: nat)
    requires i < 27
    ensures IsBits(TripleCode(i))
    ensures 3 <= |TripleCode(i)| <= 9 && TripleCode(i)[|TripleCode(i)| - 1] == '1'
  {
    assert IsBits(Group(i / 9)) && IsBits(Group(i / 3 % 3)) && IsBits(Group(i % 3));
  }

  /** Every code of the table is made of '0' and '1', and no symbol is '0' or
      '1'; so a later entry's symbol never occurs inside an earlier code. */
  lemma TableWellFormed()
    ensures forall i :: 0 <= i < |Codes| ==> IsBits(Codes[i].1)
    ensures forall i :: 0 <= i < |Codes| ==> Codes[i].0 != '0' && Codes[i].0 != '1'
    ensures forall i :: 0 <= i < |Codes| ==> Allowed(Codes[i].0)
  {
    TableShape();
    forall i | 0 <= i < |Codes|
      ensures IsBits(Codes[i].1)
    {
      TripleCodeFacts(i);
    }
  }
}
