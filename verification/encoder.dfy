/** The encoder: the code table applied to the normalised text by in-order
    substitution, then zero padding up to a whole number of grid rows. */
module Encoder {
  import opened Wrappers
  import opened Bits
  import opened Arith
  import opened Alphabet

  /** A table as the encoder sees it: (symbol, code) pairs in order. */
  type Table = seq<(char, string)>

  // ---------------------------------------------------------------------------
  // Substitution, as the generator performs it
  // ---------------------------------------------------------------------------

  /** `replaceAll` with a one-character pattern: every occurrence of `sym` in
      `s` is replaced by `w`, and nothing else changes. */
  function ReplaceAll(s: string, sym: char, w: string): string {
    if s == [] then []
    else (if s[0] == sym then w else [s[0]]) + ReplaceAll(s[1..], sym, w)
  }

  /** Text without the pattern is left unchanged. */
  lemma {:induction false} ReplaceAllAbsent(s: string, sym: char, w: string)
    requires sym !in s
    ensures ReplaceAll(s, sym, w) == s
  {
    if s != [] {
      assert sym !in s[1..];
      ReplaceAllAbsent(s[1..], sym, w);
      assert s == [s[0]] + s[1..];
    }
  }

  /** When the replacement does not contain the pattern, no occurrence of the
      pattern is left. */
  lemma {:induction false} ReplaceAllRemoves(s: string, sym: char, w: string)
    requires sym !in w
    ensures sym !in ReplaceAll(s, sym, w)
  {
    if s != [] {
      ReplaceAllRemoves(s[1..], sym, w);
      var head := if s[0] == sym then w else [s[0]];
      assert sym !in head;
      assert ReplaceAll(s, sym, w) == head + ReplaceAll(s[1..], sym, w);
    }
  }

  /** Replacing in a concatenation is replacing in each part. */
  lemma {:induction false} ReplaceAllAppend(a: string, b: string, sym: char, w: string)
    ensures ReplaceAll(a + b, sym, w) == ReplaceAll(a, sym, w) + ReplaceAll(b, sym, w)
  {
    if a == [] {
      assert a + b == b;
    } else {
      var ab := a + b;
      assert ab[0] == a[0] && ab[1..] == a[1..] + b;
      ReplaceAllAppend(a[1..], b, sym, w);
    }
  }

  /** The text after the first `n` entries of `t` have been substituted, one
      `replaceAll` per entry, in table order. */
  function ApplyEntries(t: Table, s: string, n: nat): string
    requires n <= |t|
  {
    if n == 0 then s
    else ReplaceAll(ApplyEntries(t, s, n - 1), t[n - 1].0, t[n - 1].1)
  }

  /** The generator's encoding step: every entry of the code table applied in
      order to the whole message. */
  function Codify(message: string): string {
    ApplyEntries(Codes, message, |Codes|)
  }

  // ---------------------------------------------------------------------------
  // Per-character lookup, the reference the substitution is compared with
  // ---------------------------------------------------------------------------

  /** The code of the first entry of `t` whose symbol is `c`, if any. */
  function Lookup(t: Table, c: char): (r: Option<string>)
    ensures r.Some? ==> exists i :: 0 <= i < |t| && t[i] == (c, r.value) &&
                                    forall j :: 0 <= j < i ==> t[j].0 != c
    ensures r.None? ==> forall i :: 0 <= i < |t| ==> t[i].0 != c
  {
    if t == [] then None
    else if t[0].0 == c then Some(t[0].1)
    else Lookup(t[1..], c)
  }

  /** What `c` becomes: its code when the table has one, else itself. */
  function Substitute(t: Table, c: char): string {
    match Lookup(t, c)
    case Some(w) => w
    case None => [c]
  }

  /** Per-character lookup and concatenation. */
  function EncodeWith(t: Table, s: string): string {
    if s == [] then [] else Substitute(t, s[0]) + EncodeWith(t, s[1..])
  }

  /** What the cipher writes for one character: its code when it has one,
      else the character itself. */
  function CharCode(c: char): string {
    if Allowed(c) then CodeOf(c) else [c]
  }

  /** The reference encoding: every character replaced by what the cipher
      writes for it. It is `EncodeWith(Codes, s)` (`EncodeWithCodes`), stated
      through `CodeOf` so that proofs about it never look into the literal
      table. */
  function Encode(s: string): string {
    if s == [] then [] else CharCode(s[0]) + Encode(s[1..])
  }

  /** Codes are digit strings and no symbol is a digit: the property of the
      cipher's table that makes the order of substitution irrelevant. */
  predicate DigitCodes(t: Table) {
    forall i :: 0 <= i < |t| ==> IsBits(t[i].1) && t[i].0 != '0' && t[i].0 != '1'
  }

  /** Looking up in a table extended by one entry. */
  lemma {:induction false} LookupSnoc(t: Table, e: (char, string), c: char)
    ensures Lookup(t + [e], c) ==
      if Lookup(t, c).Some? then Lookup(t, c)
      else if e.0 == c then Some(e.1) else None
  {
    if t == [] {
      assert t + [e] == [e];
    } else {
      assert (t + [e])[0] == t[0] && (t + [e])[1..] == t[1..] + [e];
      if t[0].0 != c {
        LookupSnoc(t[1..], e, c);
      }
    }
  }

  /** An entry preceded by no other entry for its symbol is what lookup finds. */
  lemma LookupFirstMatch(t: Table, c: char, i: nat)
    requires i < |t| && t[i].0 == c
    requires forall j :: 0 <= j < i ==> t[j].0 != c
    ensures Lookup(t, c) == Some(t[i].1)
  {
    var r := Lookup(t, c);
    var k :| 0 <= k < |t| && t[k] == (c, r.value) && forall j :: 0 <= j < k ==> t[j].0 != c;
    assert k == i;
  }

  /** A single character after the first `n` substitutions is exactly its
      lookup in the first `n` entries: once replaced by a code it is never
      touched again, because no later symbol is a digit. */
  lemma {:induction false} ApplyEntriesChar(t: Table, c: char, n: nat)
    requires DigitCodes(t) && n <= |t|
    ensures ApplyEntries(t, [c], n) == Substitute(t[..n], c)
  {
    if n > 0 {
      ApplyEntriesChar(t, c, n - 1);
      var prev, e := t[..n - 1], t[n - 1];
      var before := ApplyEntries(t, [c], n - 1);
      assert t[..n] == prev + [e];
      LookupSnoc(prev, e, c);
      if Lookup(prev, c).Some? {
        DigitLookup(t, n - 1, c);
        assert e.0 !in before;
        ReplaceAllAbsent(before, e.0, e.1);
      } else {
        assert ReplaceAll([c], e.0, e.1) == (if c == e.0 then e.1 else [c]) + ReplaceAll([], e.0, e.1);
      }
    }
  }

  /** What a digit-code table, or any prefix of it, finds is a digit string. */
  lemma DigitLookup(t: Table, m: nat, c: char)
    requires DigitCodes(t) && m <= |t| && Lookup(t[..m], c).Some?
    ensures IsBits(Lookup(t[..m], c).value)
  {
    var w := Lookup(t[..m], c).value;
    var i :| 0 <= i < m && t[..m][i] == (c, w);
    assert t[i] == (c, w);
  }

  /** Substitution on a concatenation is substitution on each part. */
  lemma {:induction false} ApplyEntriesAppend(t: Table, a: string, b: string, n: nat)
    requires n <= |t|
    ensures ApplyEntries(t, a + b, n) == ApplyEntries(t, a, n) + ApplyEntries(t, b, n)
  {
    if n > 0 {
      var x, y := ApplyEntries(t, a, n - 1), ApplyEntries(t, b, n - 1);
      var e := t[n - 1];
      ApplyEntriesAppend(t, a, b, n - 1);
      assert ApplyEntries(t, a + b, n) == ReplaceAll(x + y, e.0, e.1);
      ReplaceAllAppend(x, y, e.0, e.1);
    }
  }

  lemma {:induction false} ApplyEntriesEmpty(t: Table, n: nat)
    requires n <= |t|
    ensures ApplyEntries(t, [], n) == []
  {
    if n > 0 {
      ApplyEntriesEmpty(t, n - 1);
    }
  }

  /** In-order substitution over a digit-code table equals per-character
      lookup and concatenation, for every input. */
  lemma {:induction false} ApplyEntriesIsLookup(t: Table, s: string)
    requires DigitCodes(t)
    ensures ApplyEntries(t, s, |t|) == EncodeWith(t, s)
  {
    if s == [] {
      ApplyEntriesEmpty(t, |t|);
    } else {
      assert s == [s[0]] + s[1..];
      ApplyEntriesAppend(t, [s[0]], s[1..], |t|);
      ApplyEntriesChar(t, s[0], |t|);
      assert t[..|t|] == t;
      ApplyEntriesIsLookup(t, s[1..]);
    }
  }

  /** The generator's table-order `replaceAll` chain computes the per-character
      encoding of its input. */
  lemma CodifyIsLookup(message: string)
    ensures Codify(message) == Encode(message)
  {
    TableWellFormed();
    ApplyEntriesIsLookup(Codes, message);
    EncodeWithCodes(message);
  }

  /** Lookup in the cipher's table and concatenation is the reference
      encoding. */
  lemma {:induction false} EncodeWithCodes(s: string)
    ensures EncodeWith(Codes, s) == Encode(s)
  {
    if s != [] {
      SubstituteCodes(s[0]);
      EncodeWithCodes(s[1..]);
    }
  }

  /** Substitution with the cipher's table gives the code of an allowed
      character and leaves every other character as it is. */
  lemma SubstituteCodes(c: char)
    ensures Substitute(Codes, c) == CharCode(c)
  {
    if Allowed(c) {
      LookupAllowed(c);
    } else if Lookup(Codes, c).Some? {
      TableWellFormed();
      assert false;
    }
  }

  /** An allowed character is looked up to its code. */
  lemma LookupAllowed(c: char)
    requires Allowed(c)
    ensures Lookup(Codes, c) == Some(CodeOf(c))
  {
    var i := IndexOf(c);
    CodeOfEntry(c);
    forall j | 0 <= j < i
      ensures Codes[j].0 != c
    {
      TableShape();
      if SymbolAt(j) == SymbolAt(i) {
        SymbolsDistinct(j, i);
      }
    }
    LookupFirstMatch(Codes, c, i);
  }

  /** The encoding of normalised text is a bit string of 3 to 9 bits per
      character that ends in '1' unless the text is empty. */
  lemma EncodeFacts(s: string)
    requires OverAlphabet(s)
    ensures IsBits(Encode(s))
    ensures 3 * |s| <= |Encode(s)| <= 9 * |s|
    ensures s != [] ==> Encode(s)[|Encode(s)| - 1] == '1'
  {
    EncodeIsBits(s);
    EncodeLength(s);
    if s != [] {
      EncodeEnd(s);
    }
  }

  lemma {:induction false} EncodeIsBits(s: string)
    requires OverAlphabet(s)
    ensures IsBits(Encode(s))
  {
    if s != [] {
      EncodeCons(s);
      EncodeIsBits(s[1..]);
      BitsAppend(CodeOf(s[0]), Encode(s[1..]));
    }
  }

  lemma {:induction false} EncodeLength(s: string)
    requires OverAlphabet(s)
    ensures 3 * |s| <= |Encode(s)| <= 9 * |s|
  {
    if s != [] {
      EncodeCons(s);
      EncodeLength(s[1..]);
    }
  }

  lemma {:induction false} EncodeEnd(s: string)
    requires OverAlphabet(s) && s != []
    ensures |Encode(s)| > 0 && Encode(s)[|Encode(s)| - 1] == '1'
  {
    EncodeCons(s);
    if s[1..] != [] {
      EncodeEnd(s[1..]);
    }
    EndsInOne(Encode(s), CodeOf(s[0]), Encode(s[1..]));
  }

  /** A concatenation of a part ending in '1' and a part that is empty or ends
      in '1' ends in '1'. */
  lemma EndsInOne(e: string, w: string, rest: string)
    requires e == w + rest
    requires |w| > 0 && w[|w| - 1] == '1'
    requires rest == [] || rest[|rest| - 1] == '1'
    ensures |e| > 0 && e[|e| - 1] == '1'
  {
    if rest == [] {
      assert e == w;
    }
  }

  /** The encoding of a non-empty normalised text starts with the code of its
      first character. */
  lemma EncodeCons(s: string)
    requires OverAlphabet(s) && s != []
    ensures OverAlphabet(s[1..])
    ensures Encode(s) == CodeOf(s[0]) + Encode(s[1..])
  {
    assert Allowed(s[0]);
  }

  /** Encoding a concatenation encodes the parts one after the other. */
  lemma {:induction false} EncodeAppend(a: string, b: string)
    ensures Encode(a + b) == Encode(a) + Encode(b)
  {
    if a != [] {
      assert (a + b)[0] == a[0] && (a + b)[1..] == a[1..] + b;
      EncodeAppend(a[1..], b);
    } else {
      assert a + b == b;
    }
  }

  /** A single allowed character encodes to its code. */
  lemma EncodeOne(c: char)
    requires Allowed(c)
    ensures Encode([c]) == CodeOf(c)
  {
    assert [c][1..] == [];
  }

  /** Of two equal concatenations, one first part is a prefix of the other. */
  lemma PrefixOfEqualConcat(u: string, x: string, v: string, y: string)
    requires u + x == v + y
    ensures u <= v || v <= u
  {
    if |u| <= |v| {
      assert forall k :: 0 <= k < |u| ==> u[k] == (u + x)[k] == (v + y)[k] == v[k];
    } else {
      assert forall k :: 0 <= k < |v| ==> v[k] == (v + y)[k] == (u + x)[k] == u[k];
    }
  }

  /** Two allowed characters whose codes are prefix-related are equal. */
  lemma CodesDetermineSymbol(c: char, d: char)
    requires Allowed(c) && Allowed(d)
    requires CodeOf(c) <= CodeOf(d) || CodeOf(d) <= CodeOf(c)
    ensures c == d
  {
    var i, j := IndexOf(c), IndexOf(d);
    if CodeOf(c) <= CodeOf(d) {
      TripleCodePrefix(i, j);
    } else {
      TripleCodePrefix(j, i);
    }
  }

  /** Distinct normalised texts have distinct encodings. */
  lemma {:induction false} EncodeInjective(s: string, t: string)
    requires OverAlphabet(s) && OverAlphabet(t)
    requires Encode(s) == Encode(t)
    ensures s == t
  {
    if s == [] || t == [] {
      EncodeLength(s);
      EncodeLength(t);
    } else {
      var c, d := s[0], t[0];
      var x, y := Encode(s[1..]), Encode(t[1..]);
      assert CodeOf(c) + x == CodeOf(d) + y by {
        EncodeCons(s);
        EncodeCons(t);
      }
      PrefixOfEqualConcat(CodeOf(c), x, CodeOf(d), y);
      CodesDetermineSymbol(c, d);
      CancelPrefix(CodeOf(c), x, y);
      assert OverAlphabet(s[1..]) && OverAlphabet(t[1..]);
      EncodeInjective(s[1..], t[1..]);
      assert s == [c] + s[1..] && t == [d] + t[1..];
    }
  }

  lemma CancelPrefix(w: string, x: string, y: string)
    requires w + x == w + y
    ensures x == y
  {
    assert x == (w + x)[|w|..] && y == (w + y)[|w|..];
  }

  // ---------------------------------------------------------------------------
  // Padding to a whole number of rows
  // ---------------------------------------------------------------------------

  /** How many '0's bring a length `n` up to the next multiple of `half`. */
  function PadCount(n: nat, half: nat): nat
    requires half >= 1
  {
    (half - n % half) % half
  }

  /** The padded bitstream: `bits` followed by as many '0's as the padding
      loop appends for a grid of `columns` columns. */
  function Pad(bits: string, columns: int): string
    requires columns >= 2 && columns % 2 == 0
  {
    bits + Zeros(PadCount(|bits|, columns / 2))
  }

  /** `PadCount` is the least number of extra characters that makes the
      length a multiple of `half`. */
  lemma PadCountFacts(n: nat, half: nat)
    requires half >= 1
    ensures (n + PadCount(n, half)) % half == 0
    ensures PadCount(n, half) < half
    ensures forall m :: n <= m < n + PadCount(n, half) ==> m % half != 0
    ensures n % half == 0 ==> PadCount(n, half) == 0
  {
    PadCountValue(n, half);
    if n % half != 0 {
      PadCountFills(n, half);
      PadCountLeast(n, half);
    }
  }

  /** The padding is nothing for a multiple of `half`, else what is missing
      to the next one. */
  lemma PadCountValue(n: nat, half: nat)
    requires half >= 1
    ensures PadCount(n, half) == if n % half == 0 then 0 else half - n % half
  {
    var r := n % half;
    if r == 0 {
      DivModUnique(half, half, 1, 0);
    } else {
      DivModUnique(half - r, half, 0, half - r);
    }
  }

  lemma PadCountFills(n: nat, half: nat)
    requires half >= 1 && n % half != 0
    ensures (n + (half - n % half)) % half == 0
  {
    var q, r := n / half, n % half;
    assert n + (half - r) == half * (q + 1) + 0;
    DivModUnique(n + (half - r), half, q + 1, 0);
  }

  lemma PadCountLeast(n: nat, half: nat)
    requires half >= 1 && n % half != 0
    ensures forall m :: n <= m < n + (half - n % half) ==> m % half != 0
  {
    var q, r := n / half, n % half;
    forall m | n <= m < n + (half - r)
      ensures m % half != 0
    {
      assert m == half * q + (r + (m - n));
      DivModUnique(m, half, q, r + (m - n));
    }
  }

  /** The padded bitstream is the input followed only by '0's, its length is a
      multiple of `columns / 2`, fewer than `columns / 2` '0's are added, no
      shorter padding would do, and input already of such a length is kept. */
  lemma PadFacts(bits: string, columns: int)
    requires columns >= 2 && columns % 2 == 0
    ensures |Pad(bits, columns)| >= |bits| && Pad(bits, columns)[..|bits|] == bits
    ensures forall j :: |bits| <= j < |Pad(bits, columns)| ==> Pad(bits, columns)[j] == '0'
    ensures |Pad(bits, columns)| % (columns / 2) == 0
    ensures |Pad(bits, columns)| - |bits| < columns / 2
    ensures forall m :: |bits| <= m < |Pad(bits, columns)| ==> m % (columns / 2) != 0
    ensures |bits| % (columns / 2) == 0 ==> Pad(bits, columns) == bits
  {
    var half := columns / 2;
    var k := PadCount(|bits|, half);
    PadCountFacts(|bits|, half);
    var r := bits + Zeros(k);
    assert r[..|bits|] == bits;
    if k == 0 {
      assert r == bits + [];
    }
  }

  /** The padded stream is the input followed by '0's only. */
  lemma PadSplit(bits: string, columns: int)
    requires columns >= 2 && columns % 2 == 0
    ensures |bits| <= |Pad(bits, columns)|
    ensures Pad(bits, columns) == bits + Zeros(|Pad(bits, columns)| - |bits|)
  {
    var k := PadCount(|bits|, columns / 2);
    assert Pad(bits, columns) == bits + Zeros(k);
  }

  /** Padding a padded bitstream changes nothing. */
  lemma PadIdempotent(bits: string, columns: int)
    requires columns >= 2 && columns % 2 == 0
    ensures Pad(Pad(bits, columns), columns) == Pad(bits, columns)
  {
    PadFacts(bits, columns);
    PadFacts(Pad(bits, columns), columns);
  }

  /** The generator's padding loop: append '0' while the length is not a
      multiple of `columns / 2`. It stops, and its result is `Pad`. */
  method CompleteMessage(message: string, columns: int) returns (padded: string)
    requires columns >= 2 && columns % 2 == 0
    ensures padded == Pad(message, columns)
  {
    var half := columns / 2;
    var goal := |message| + PadCount(|message|, half);
    PadCountFacts(|message|, half);
    padded := message;
    while |padded| % half != 0
      invariant |message| <= |padded| <= goal
      invariant padded == message + Zeros(|padded| - |message|)
      decreases goal - |padded|
    {
      padded := padded + "0";
    }
  }

  /** The padded stream still determines the message: the trailing '0's of
      the padding can never be mistaken for code, because every code ends in
      '1'. */
  lemma PaddedEncodingInjective(s: string, t: string, m: nat, n: nat)
    requires OverAlphabet(s) && OverAlphabet(t)
    requires Encode(s) + Zeros(m) == Encode(t) + Zeros(n)
    ensures s == t
  {
    var u, v := Encode(s), Encode(t);
    assert u == [] || u[|u| - 1] == '1' by {
      EncodeFacts(s);
    }
    assert v == [] || v[|v| - 1] == '1' by {
      EncodeFacts(t);
    }
    StripZeros(u, v, m, n);
    EncodeInjective(s, t);
  }

  /** Two strings that are empty or end in '1' are equal when they are equal
      after appending some '0's to each. */
  lemma StripZeros(u: string, v: string, m: nat, n: nat)
    requires u == [] || u[|u| - 1] == '1'
    requires v == [] || v[|v| - 1] == '1'
    requires u + Zeros(m) == v + Zeros(n)
    ensures u == v
  {
    if |u| == |v| {
      assert u == (u + Zeros(m))[..|u|] && v == (v + Zeros(n))[..|v|];
    } else {
      var last := if |u| < |v| then |v| - 1 else |u| - 1;
      ZerosAfter(u, m, last);
      ZerosAfter(v, n, last);
      assert false;
    }
  }

  lemma ZerosAfter(u: string, m: nat, k: nat)
    requires k < |u| + m
    ensures (u + Zeros(m))[k] == if k < |u| then u[k] else '0'
  {
  }

  /** The padded stream of a message is its encoding followed by '0's. */
  lemma PaddedEncoding(message: string, columns: int)
    requires columns >= 2 && columns % 2 == 0
    ensures var bits, code := Pad(Codify(message), columns), Encode(message);
      |code| <= |bits| && bits == code + Zeros(|bits| - |code|)
  {
    CodifyIsLookup(message);
  }

  /** The generator's bitstream for a normalised message: its encoding,
      then the fewest '0's that make the length a multiple of `columns / 2`. */
  lemma PaddedStream(message: string, columns: int)
    requires OverAlphabet(message) && columns >= 2 && columns % 2 == 0
    ensures var bits, code := Pad(Codify(message), columns), Encode(message);
      IsBits(bits) &&
      |code| <= |bits| && bits[..|code|] == code &&
      (forall j :: |code| <= j < |bits| ==> bits[j] == '0') &&
      |bits| % (columns / 2) == 0 && |bits| - |code| < columns / 2
  {
    var code := Encode(message);
    CodifyIsLookup(message);
    EncodeFacts(message);
    PadFacts(code, columns);
    BitsAppend(code, Zeros(PadCount(|code|, columns / 2)));
  }
}
