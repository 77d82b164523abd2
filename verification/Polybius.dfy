/** The Polybius square codec of week6/polybius.c, for any 5 by 5 table. */
module Polybius {
  import opened Cipher
  import opened Members

  const STANDARD: seq<string> := ["ABCDE", "FGHIK", "LMNOP", "QRSTU", "VWXYZ"]

  type Grid = g: seq<string> | |g| == 5 && forall r :: 0 <= r < 5 ==> |g[r]| == 5 witness STANDARD

  /** What the encoder may look for in the table. */
  predicate Sought(c: char) {
    c != '\0' && !('a' <= c <= 'z') && c != 'J'
  }

  /** `toupper`, with 'J' taken as 'I'. */
  function Fold(c: char): (r: char)
    ensures (Sought(r) <==> c != '\0') && (Sought(c) ==> r == c)
  {
    var upper := if 'a' <= c <= 'z' then c - 'a' + 'A' else c;
    if upper == 'J' then 'I' else upper
  }

  /** Lower case goes to upper case, j and J to I, and everything else stays. */
  lemma FoldIs(c: char)
    ensures c == 'j' || c == 'J' ==> Fold(c) == 'I'
    ensures 'a' <= c <= 'z' && c != 'j' ==> Fold(c) as int == c as int - 32
    ensures !('a' <= c <= 'z') && c != 'J' ==> Fold(c) == c
  {
  }

  /** The first place of a character in a row, or the row's length. */
  function First(row: string, c: char): (k: nat)
    ensures k <= |row| && (forall j :: 0 <= j < k ==> row[j] != c) && (k < |row| ==> row[k] == c)
  {
    if row == "" || row[0] == c then 0 else 1 + First(row[1..], c)
  }

  function Digit(k: nat): (c: char)
    requires k < 5
    ensures '1' <= c <= '5' && Index(c) == k
  {
    '1' + k as char
  }

  predicate IsDigit(c: char) {
    '1' <= c <= '5'
  }

  function Index(c: char): (k: nat)
    requires IsDigit(c)
    ensures k < 5
  {
    (c - '1') as nat
  }

  // ----- Encoding

  /** The two digits written at the first match in a row. */
  function RowCode(g: Grid, r: nat, c: char): (code: string)
    requires r < 5
    ensures forall k :: 0 <= k < 5 && g[r][k] == c ==>
              (forall j :: 0 <= j < k ==> g[r][j] != c) ==> code == ['1' + r as char, '1' + k as char]
    ensures c !in g[r] ==> code == ""
  {
    var col := First(g[r], c);
    if col < 5 then [Digit(r), Digit(col)] else ""
  }

  /** The digits written for one folded character by the first `rows` rows: `break` leaves a row, not the table. */
  function CharCode(g: Grid, c: char, rows: nat): string
    requires rows <= 5
  {
    if rows == 0 then "" else CharCode(g, c, rows - 1) + RowCode(g, rows - 1, c)
  }

  function Encoded(g: Grid, s: string): string {
    if s == "" then "" else Encoded(g, s[..|s| - 1]) + CharCode(g, Fold(s[|s| - 1]), 5)
  }

  ghost predicate InRow(g: Grid, r: nat, c: char)
    requires r < 5
  {
    c in g[r]
  }

  ghost predicate InGrid(g: Grid, c: char) {
    exists r: nat :: r < 5 && InRow(g, r, c)
  }

  /** No character the encoder looks for stands in two rows. */
  ghost predicate OneRow(g: Grid) {
    forall c: char, q: nat, r: nat :: q < r < 5 && Sought(c) && InRow(g, q, c) ==> !InRow(g, r, c)
  }

  lemma InRowCode(g: Grid, r: nat, c: char)
    requires r < 5
    ensures InRow(g, r, c) <==> First(g[r], c) < 5
    ensures |RowCode(g, r, c)| == if InRow(g, r, c) then 2 else 0
  {
    var k := First(g[r], c);
    if k < 5 { assert g[r][k] == c; }
  }

  lemma {:induction false} NoRowCode(g: Grid, c: char, rows: nat)
    requires rows <= 5 && forall r: nat :: r < rows ==> !InRow(g, r, c)
    ensures CharCode(g, c, rows) == ""
  {
    if rows == 0 {
    } else {
      hide RowCode, InRow;
      NoRowCode(g, c, rows - 1);
      InRowCode(g, rows - 1, c);
    }
  }

  lemma {:induction false} OneRowCode(g: Grid, c: char, r: nat, rows: nat)
    requires r < rows <= 5 && forall q: nat :: q < rows && q != r ==> !InRow(g, q, c)
    ensures CharCode(g, c, rows) == RowCode(g, r, c)
  {
    hide RowCode, InRow;
    if r == rows - 1 {
      NoRowCode(g, c, r);
    } else {
      OneRowCode(g, c, r, rows - 1);
      InRowCode(g, rows - 1, c);
    }
  }

  /** What one character is encoded to when one row at most holds it. */
  lemma CharCodeIs(g: Grid, c: char)
    requires OneRow(g) && Sought(c)
    ensures (forall r: nat :: r < 5 ==> !InRow(g, r, c)) ==> CharCode(g, c, 5) == ""
    ensures forall r: nat :: r < 5 && InRow(g, r, c) ==> CharCode(g, c, 5) == RowCode(g, r, c)
  {
    hide CharCode, RowCode, InRow, Sought, OneRow;
    forall q: nat | q < 5 && InRow(g, q, c) ensures CharCode(g, c, 5) == RowCode(g, q, c) {
      OnlyRow(g, c, q);
      OneRowCode(g, c, q, 5);
    }
    if forall r: nat :: r < 5 ==> !InRow(g, r, c) { NoRowCode(g, c, 5); }
  }

  lemma OnlyRow(g: Grid, c: char, q: nat)
    requires OneRow(g) && Sought(c) && q < 5 && InRow(g, q, c)
    ensures forall r: nat :: r < 5 && r != q ==> !InRow(g, r, c)
  {
    hide InRow, Sought;
  }

  // ----- Decoding

  /** Both digits of every whole pair are in 1..5; an odd last character is never looked at. */
  predicate Pairs(code: string) {
    forall k :: 0 <= k < |code| / 2 * 2 ==> IsDigit(code[k])
  }

  function Decoded(g: Grid, code: string): (s: string)
    requires Pairs(code)
    ensures |s| == |code| / 2
    ensures forall k :: 0 <= k < |s| ==> s[k] == g[Index(code[2 * k])][Index(code[2 * k + 1])]
    ensures forall k :: 0 <= k < |s| ==>
              s[k] == g[code[2 * k] as int - '1' as int][code[2 * k + 1] as int - '1' as int]
  {
    seq(|code| / 2, k requires 0 <= k < |code| / 2 => g[Index(code[2 * k])][Index(code[2 * k + 1])])
  }

  lemma DecodedAppend(g: Grid, s: string, t: string)
    requires Pairs(s) && Pairs(t) && |s| % 2 == 0
    ensures Pairs(s + t) && Decoded(g, s + t) == Decoded(g, s) + Decoded(g, t)
  {
  }

  // ----- Decoding what was encoded

  /** The characters the table knows, upper-cased with 'J' as 'I'; the others dropped. */
  ghost function Kept(g: Grid, s: string): string {
    if s == "" then ""
    else
      var c := s[|s| - 1];
      var upper := if c == 'j' || c == 'J' then 'I' else if 'a' <= c <= 'z' then (c as int - 32) as char else c;
      Kept(g, s[..|s| - 1]) + if InGrid(g, upper) then [upper] else ""
  }

  lemma DecodeRow(g: Grid, r: nat, c: char)
    requires r < 5
    ensures var code := RowCode(g, r, c);
            |code| % 2 == 0 && Pairs(code) && forall k :: 0 <= k < |code| / 2 ==> Decoded(g, code)[k] == c
  {
  }

  /** Whatever the table, a character's code decodes to that character, once for each row that holds it. */
  lemma {:induction false} DecodeCode(g: Grid, c: char, rows: nat)
    requires rows <= 5
    ensures var code := CharCode(g, c, rows);
            |code| % 2 == 0 && Pairs(code) && forall k :: 0 <= k < |code| / 2 ==> Decoded(g, code)[k] == c
  {
    if rows == 0 {
    } else {
      DecodeCode(g, c, rows - 1);
      DecodeRow(g, rows - 1, c);
      DecodedAppend(g, CharCode(g, c, rows - 1), RowCode(g, rows - 1, c));
    }
  }

  lemma DecodeChar(g: Grid, c: char)
    requires OneRow(g) && Sought(c)
    ensures var code := CharCode(g, c, 5);
            |code| % 2 == 0 && Pairs(code) && Decoded(g, code) == if InGrid(g, c) then [c] else ""
  {
    CharCodeIs(g, c);
    DecodeCode(g, c, 5);
    if InGrid(g, c) {
      var r: nat :| r < 5 && InRow(g, r, c);
      InRowCode(g, r, c);
    }
  }

  lemma NothingKept(g: Grid)
    ensures Encoded(g, "") == "" && Pairs("") && Decoded(g, "") == Kept(g, "") == ""
  {
  }

  lemma LastKept(g: Grid, s: string)
    requires s != ""
    ensures var before, c := s[..|s| - 1], Fold(s[|s| - 1]);
            Encoded(g, s) == Encoded(g, before) + CharCode(g, c, 5) &&
            Kept(g, s) == Kept(g, before) + if InGrid(g, c) then [c] else ""
  {
    hide CharCode, InGrid, Fold;
    FoldIs(s[|s| - 1]);
  }

  /** One more character. */
  lemma DecodeNext(g: Grid, code: string, c: char)
    requires OneRow(g) && Sought(c) && |code| % 2 == 0 && Pairs(code)
    ensures var code' := code + CharCode(g, c, 5);
            |code'| % 2 == 0 && Pairs(code') && |code'| <= |code| + 2 &&
            Decoded(g, code') == Decoded(g, code) + if InGrid(g, c) then [c] else ""
  {
    hide CharCode, Decoded, InGrid, OneRow, Pairs, Sought;
    DecodeChar(g, c);
    DecodedAppend(g, code, CharCode(g, c, 5));
    assert |Decoded(g, CharCode(g, c, 5))| <= 1;
  }

  lemma LastSought(s: string)
    requires s != "" && '\0' !in s
    ensures '\0' !in s[..|s| - 1] && Sought(Fold(s[|s| - 1]))
  {
    hide Sought, Fold;
    assert s[|s| - 1] in s;
  }

  lemma {:induction false} DecodeOfEncode(g: Grid, s: string)
    requires OneRow(g) && '\0' !in s
    ensures |Encoded(g, s)| % 2 == 0 && Pairs(Encoded(g, s)) && |Encoded(g, s)| <= 2 * |s|
    ensures Decoded(g, Encoded(g, s)) == Kept(g, s)
  {
    hide Encoded, Kept, CharCode, Decoded, InGrid, OneRow, Fold, Pairs, Sought;
    if s == "" {
      NothingKept(g);
    } else {
      var before := s[..|s| - 1];
      LastSought(s);
      LastKept(g, s);
      DecodeOfEncode(g, before);
      DecodeNext(g, Encoded(g, before), Fold(s[|s| - 1]));
    }
  }

  lemma {:induction false} TwoRowsTwice(g: Grid, c: char, q: nat, r: nat, rows: nat)
    requires q < r < rows <= 5 && InRow(g, q, c) && InRow(g, r, c)
    ensures |CharCode(g, c, rows)| >= 4
  {
    if r == rows - 1 {
      OneRowOnce(g, c, q, r);
      InRowCode(g, r, c);
    } else {
      TwoRowsTwice(g, c, q, r, rows - 1);
    }
  }

  lemma {:induction false} OneRowOnce(g: Grid, c: char, q: nat, rows: nat)
    requires q < rows <= 5 && InRow(g, q, c)
    ensures |CharCode(g, c, rows)| >= 2
  {
    if q == rows - 1 { InRowCode(g, q, c); } else { OneRowOnce(g, c, q, rows - 1); }
  }

  lemma EncodedOne(g: Grid, c: char)
    ensures Encoded(g, [c]) == CharCode(g, Fold(c), 5)
  {
    var s := [c];
    assert s[..|s| - 1] == "";
  }

  lemma TwoRowsWitness(g: Grid) returns (c: char, code: string)
    requires !OneRow(g)
    ensures c != '\0' && code == Encoded(g, [c]) && |code| >= 4
  {
    var q: nat, r: nat;
    c, q, r :| q < r < 5 && Sought(c) && InRow(g, q, c) && InRow(g, r, c);
    TwoRowsTwice(g, c, q, r, 5);
    EncodedOne(g, c);
    code := Encoded(g, [c]);
  }

  /** The encoder stays inside its 2·|s| + 1 cells on every string exactly when no character stands in two rows. */
  lemma EncodedFitsExactly(g: Grid)
    ensures OneRow(g) <==> forall s: string :: '\0' !in s ==> |Encoded(g, s)| <= 2 * |s|
  {
    if OneRow(g) {
      forall s: string | '\0' !in s ensures |Encoded(g, s)| <= 2 * |s| { DecodeOfEncode(g, s); }
    } else {
      var c, code := TwoRowsWitness(g);
    }
  }

  /** Decoding recovers the folded text on every string exactly when no character stands in two rows. */
  lemma DecodeOfEncodeExactly(g: Grid)
    ensures OneRow(g) <==>
            forall s: string :: '\0' !in s ==> Pairs(Encoded(g, s)) && Decoded(g, Encoded(g, s)) == Kept(g, s)
  {
    if OneRow(g) {
      forall s: string | '\0' !in s
        ensures Pairs(Encoded(g, s)) && Decoded(g, Encoded(g, s)) == Kept(g, s)
      {
        DecodeOfEncode(g, s);
      }
    } else {
      var c, code := TwoRowsWitness(g);
      assert Kept(g, [c][..0]) == "";
      assert |Kept(g, [c])| <= 1;
    }
  }

  // ----- Encoding what was decoded

  /** All cells differ and the encoder looks for each of them. */
  ghost predicate Proper(g: Grid) {
    (forall r, k :: 0 <= r < 5 && 0 <= k < 5 ==> Sought(g[r][k])) &&
    forall q, j, r, k :: 0 <= q < 5 && 0 <= j < 5 && 0 <= r < 5 && 0 <= k < 5 && g[q][j] == g[r][k] ==> q == r && j == k
  }

  /** A code text as `pbDecode` is meant for: whole pairs of digits in 1..5. */
  predicate Code(code: string) {
    |code| % 2 == 0 && Pairs(code)
  }

  lemma ProperOneRow(g: Grid)
    requires Proper(g)
    ensures OneRow(g)
  {
    forall c: char, q: nat, r: nat | q < r < 5 && Sought(c) && InRow(g, q, c) ensures !InRow(g, r, c) {
      var j :| 0 <= j < 5 && g[q][j] == c;
    }
  }

  lemma ProperCode(g: Grid, r: nat, k: nat)
    requires Proper(g) && r < 5 && k < 5
    ensures CharCode(g, g[r][k], 5) == [Digit(r), Digit(k)]
  {
    ProperOneRow(g);
    assert InRow(g, r, g[r][k]);
    CharCodeIs(g, g[r][k]);
    InRowCode(g, r, g[r][k]);
  }

  lemma {:induction false} EncodeOfDecode(g: Grid, code: string)
    requires Proper(g) && Code(code)
    ensures Encoded(g, Decoded(g, code)) == code
    decreases |code|
  {
    if code == "" {
    } else {
      DecodedLast(g, code);
      var n := |code| - 2;
      var s := Decoded(g, code);
      EncodeOfDecode(g, code[..n]);
      ProperCode(g, Index(code[n]), Index(code[n + 1]));
    }
  }

  lemma DecodedLast(g: Grid, code: string)
    requires Code(code) && code != ""
    ensures var n, s := |code| - 2, Decoded(g, code);
            Code(code[..n]) && IsDigit(code[n]) && IsDigit(code[n + 1]) && s != "" &&
            s[..|s| - 1] == Decoded(g, code[..n]) && s[|s| - 1] == g[Index(code[n])][Index(code[n + 1])] &&
            code == code[..n] + [Digit(Index(code[n])), Digit(Index(code[n + 1]))]
  {
    var n := |code| - 2;
    assert n == 2 * (n / 2);
    assert code == code[..n] + [code[n], code[n + 1]];
  }

  lemma CellCode(g: Grid, r: nat, k: nat)
    requires r < 5 && k < 5 && Encoded(g, Seen(Decoded(g, [Digit(r), Digit(k)]))) == [Digit(r), Digit(k)]
    ensures Cell(g, r, k)
  {
    hide CharCode, Encoded, Fold, Seen;
    var x := g[r][k];
    assert Decoded(g, [Digit(r), Digit(k)]) == [x];
    EncodedNone(g);
    assert x != '\0' && Seen([x]) == [x];
    EncodedOne(g, x);
    DecodeCode(g, Fold(x), 5);
    assert Decoded(g, CharCode(g, Fold(x), 5))[0] == Fold(x);
  }

  /** Encoding recovers every code text exactly when the table is proper. */
  lemma EncodeOfDecodeExactly(g: Grid)
    ensures Proper(g) <==> forall code: string :: Code(code) ==> Encoded(g, Seen(Decoded(g, code))) == code
  {
    hide Proper, Encoded, Decoded, Seen, Cell, Pairs, Digit;
    if Proper(g) {
      forall code: string | Code(code) ensures Encoded(g, Seen(Decoded(g, code))) == code {
        EncodeOfDecode(g, code);
        DecodedSeen(g, code);
      }
    }
    if forall code: string :: Code(code) ==> Encoded(g, Seen(Decoded(g, code))) == code {
      forall r: nat, k: nat | r < 5 && k < 5 ensures Cell(g, r, k) {
        DigitsCode(r, k);
        CellCode(g, r, k);
      }
      CellsProper(g);
    }
  }

  lemma DecodedSeen(g: Grid, code: string)
    requires Proper(g) && Code(code)
    ensures Seen(Decoded(g, code)) == Decoded(g, code)
  {
    hide Seen;
  }

  lemma DigitsCode(r: nat, k: nat)
    requires r < 5 && k < 5
    ensures Code([Digit(r), Digit(k)])
  {
  }

  /** The cell is looked for and is the only one with its character. */
  ghost predicate Cell(g: Grid, r: nat, k: nat)
    requires r < 5 && k < 5
  {
    Sought(g[r][k]) && CharCode(g, g[r][k], 5) == [Digit(r), Digit(k)]
  }

  lemma CellsProper(g: Grid)
    requires forall r: nat, k: nat :: r < 5 && k < 5 ==> Cell(g, r, k)
    ensures Proper(g)
  {
    forall q, j, r, k | 0 <= q < 5 && 0 <= j < 5 && 0 <= r < 5 && 0 <= k < 5 && g[q][j] == g[r][k]
      ensures q == r && j == k
    {
      assert Cell(g, q, j) && Cell(g, r, k);
      assert Index([Digit(q), Digit(j)][0]) == q && Index([Digit(q), Digit(j)][1]) == j;
      assert Index([Digit(r), Digit(k)][0]) == r && Index([Digit(r), Digit(k)][1]) == k;
    }
    forall r, k | 0 <= r < 5 && 0 <= k < 5 ensures Sought(g[r][k]) {
      assert Cell(g, r, k);
    }
  }

  // ----- Tables of upper-case letters

  ghost predicate Alphabet(g: Grid) {
    Proper(g) && forall r, k :: 0 <= r < 5 && 0 <= k < 5 ==> 'A' <= g[r][k] <= 'Z'
  }

  /** The cells, row by row. */
  ghost function Cells(g: Grid): (s: seq<nat>)
    ensures |s| == 25 && forall r, k :: 0 <= r < 5 && 0 <= k < 5 ==> s[5 * r + k] == g[r][k] as int
  {
    seq(25, i requires 0 <= i < 25 => g[i / 5][i % 5] as int)
  }

  ghost function Between(lo: nat, n: nat): (s: set<nat>)
    ensures |s| == n && forall x :: x in s <==> lo <= x < lo + n
  {
    if n == 0 then {} else Between(lo, n - 1) + {lo + n - 1}
  }

  /** The upper-case letters without 'J'. */
  ghost function Letters(): set<nat> {
    Between(65, 9) + Between(75, 16)
  }

  lemma LettersAre()
    ensures |Letters()| == 25
    ensures forall x :: x in Letters() <==> 65 <= x <= 90 && x != 74
  {
    hide Between;
    assert Between(65, 9) !! Between(75, 16);
  }

  lemma CellsDistinct(g: Grid)
    requires Proper(g)
    ensures Distinct(Cells(g))
  {
    forall i, j | 0 <= i < j < 25 ensures Cells(g)[i] != Cells(g)[j] {
      assert Cells(g)[5 * (i / 5) + i % 5] == g[i / 5][i % 5] as int;
      assert Cells(g)[5 * (j / 5) + j % 5] == g[j / 5][j % 5] as int;
    }
  }

  lemma AlphabetProper(g: Grid)
    requires Alphabet(g)
    ensures Proper(g)
  {
  }

  lemma CellsAreLetters(g: Grid)
    requires Alphabet(g)
    ensures IdSet(Cells(g)) == Letters()
  {
    hide Letters, Cells, IdSet, Distinct, Alphabet;
    assert Proper(g) by { AlphabetProper(g); }
    CellsDistinct(g);
    LettersAre();
    AlphabetSubset(g);
    DistinctSize(Cells(g));
    SubsetSize(IdSet(Cells(g)), Letters());
  }

  lemma InGridIsCell(g: Grid, c: char)
    ensures InGrid(g, c) <==> c as int in Cells(g)
  {
    if c as int in Cells(g) {
      var i :| 0 <= i < 25 && Cells(g)[i] == c as int;
      assert Cells(g)[5 * (i / 5) + i % 5] == g[i / 5][i % 5] as int;
      assert InRow(g, i / 5, c);
    }
    if InGrid(g, c) {
      var r: nat :| r < 5 && InRow(g, r, c);
      var k :| 0 <= k < 5 && g[r][k] == c;
      assert Cells(g)[5 * r + k] == c as int;
    }
  }

  /** A proper table of upper-case letters holds all of them but 'J'. */
  lemma AlphabetIsWhole(g: Grid, c: char)
    requires Alphabet(g)
    ensures InGrid(g, c) <==> 'A' <= c <= 'Z' && c != 'J'
  {
    hide Letters, Cells, IdSet, InGrid;
    CellsAreLetters(g);
    LettersAre();
    InGridIsCell(g, c);
    assert c as int in Letters() <==> 'A' <= c <= 'Z' && c != 'J';
  }

  lemma AlphabetSubset(g: Grid)
    requires Alphabet(g)
    ensures IdSet(Cells(g)) <= Letters()
  {
    hide Letters;
    LettersAre();
    forall i | 0 <= i < 25 ensures Cells(g)[i] in Letters() {
      assert Cells(g)[5 * (i / 5) + i % 5] == g[i / 5][i % 5] as int;
      assert Sought(g[i / 5][i % 5]);
    }
  }

  lemma StandardCell(r: nat, k: nat)
    requires r < 5 && k < 5
    ensures STANDARD[r][k] as int == 65 + 5 * r + k + if 5 * r + k >= 9 then 1 else 0
  {
  }

  lemma StandardIsAlphabet()
    ensures Alphabet(STANDARD)
  {
    forall q: nat, j: nat, r: nat, k: nat | q < 5 && j < 5 && r < 5 && k < 5 && STANDARD[q][j] == STANDARD[r][k]
      ensures q == r && j == k
    {
      StandardCell(q, j);
      StandardCell(r, k);
    }
    forall r: nat, k: nat | r < 5 && k < 5 ensures Sought(STANDARD[r][k]) && 'A' <= STANDARD[r][k] <= 'Z' {
      StandardCell(r, k);
    }
  }

  /** The letters of a text in upper case, J as I. */
  function UpperLetters(s: string): string {
    if s == "" then ""
    else
      var c := s[|s| - 1];
      UpperLetters(s[..|s| - 1]) +
      if c == 'j' || c == 'J' then "I"
      else if 'a' <= c <= 'z' then [(c as int - 32) as char]
      else if 'A' <= c <= 'Z' then [c]
      else ""
  }

  lemma {:induction false} KeptLetters(g: Grid, s: string)
    requires Alphabet(g)
    ensures Kept(g, s) == UpperLetters(s)
  {
    if s == "" {
    } else {
      hide Alphabet, InGrid;
      KeptLetters(g, s[..|s| - 1]);
      var c := s[|s| - 1];
      var upper := if c == 'j' || c == 'J' then 'I' else if 'a' <= c <= 'z' then (c as int - 32) as char else c;
      AlphabetIsWhole(g, upper);
    }
  }

  /** With a proper table of upper-case letters, decoding gives back the letters of the text. */
  lemma DecodeGivesLetters(g: Grid, s: string)
    requires Alphabet(g) && '\0' !in s
    ensures Pairs(Encoded(g, s)) && Decoded(g, Encoded(g, s)) == UpperLetters(s)
  {
    hide Encoded, Decoded, Kept, UpperLetters, OneRow, Pairs;
    ProperOneRow(g);
    DecodeOfEncode(g, s);
    KeptLetters(g, s);
  }

  // ----- The code of each character

  lemma EncodedSnoc(g: Grid, s: string, c: char)
    ensures Encoded(g, s + [c]) == Encoded(g, s) + CharCode(g, Fold(c), 5)
  {
    hide CharCode, Fold;
    assert (s + [c])[..|s|] == s;
  }

  /** Texts are encoded character by character. */
  lemma {:induction false} EncodedAppend(g: Grid, s: string, t: string)
    ensures Encoded(g, s + t) == Encoded(g, s) + Encoded(g, t)
    decreases |t|
  {
    hide Encoded, CharCode, Fold;
    if t == "" {
      EncodedNone(g);
      assert s + t == s;
    } else {
      var front, c := t[..|t| - 1], t[|t| - 1];
      EncodedAppend(g, s, front);
      EncodedSnoc(g, front, c);
      EncodedSnoc(g, s + front, c);
      Regroup(Encoded(g, s), Encoded(g, front), CharCode(g, Fold(c), 5));
      assert t == front + [c] && s + t == (s + front) + [c];
    }
  }

  /** A character is encoded as the row and column, from 1, of the cell that holds its upper case, J as I. */
  lemma CellEncoded(g: Grid, c: char, r: nat, k: nat)
    requires Proper(g) && r < 5 && k < 5
    requires if c == 'j' || c == 'J' then g[r][k] == 'I'
             else if 'a' <= c <= 'z' then g[r][k] as int == c as int - 32
             else g[r][k] == c
    ensures Encoded(g, [c]) == ['1' + r as char, '1' + k as char]
  {
    hide CharCode, Encoded;
    FoldIs(c);
    EncodedOne(g, c);
    ProperCode(g, r, k);
  }

  /** A character that is no letter is not encoded. */
  lemma OtherDropped(g: Grid, c: char)
    requires Alphabet(g) && !('a' <= c <= 'z' || 'A' <= c <= 'Z')
    ensures Encoded(g, [c]) == ""
  {
    hide CharCode, Encoded, InGrid, Alphabet;
    FoldIs(c);
    EncodedOne(g, c);
    AlphabetIsWhole(g, c);
    NotInGrid(g, c);
  }

  lemma NotInGrid(g: Grid, c: char)
    requires !InGrid(g, c)
    ensures CharCode(g, c, 5) == ""
  {
    hide CharCode, InRow;
    NoRowCode(g, c, 5);
  }

  /** The built-in table, letter by letter, five a row; J is written as I, the ninth, and K to Z follow it. */
  lemma StandardCode(c: char)
    requires 'a' <= c <= 'z' || 'A' <= c <= 'Z'
    ensures var letter := if 'a' <= c <= 'z' then c as int - 'a' as int else c as int - 'A' as int;
            var n := if letter >= 9 then letter - 1 else letter;
            Encoded(STANDARD, [c]) == ['1' + (n / 5) as char, '1' + (n % 5) as char]
  {
    hide Encoded, Proper;
    var letter := if 'a' <= c <= 'z' then c as int - 'a' as int else c as int - 'A' as int;
    var n := if letter >= 9 then letter - 1 else letter;
    StandardIsAlphabet();
    StandardCell(n / 5, n % 5);
    CellEncoded(STANDARD, c, n / 5, n % 5);
  }

  // ----- The codec

  /** The text has to fit its buffer of 2·|s| + 1 cells: EncodedFitsExactly says when all texts do. */
  method PbEncode(plaintext: string, g: Grid) returns (encoded: array<char>, pos: nat)
    requires '\0' !in plaintext && |Encoded(g, plaintext)| <= 2 * |plaintext|
    ensures fresh(encoded) && encoded.Length == 2 * |plaintext| + 1
    ensures pos < encoded.Length && encoded[..pos] == Encoded(g, plaintext) && encoded[pos] == '\0'
  {
    hide Encoded, CharCode;
    encoded := new char[|plaintext| * 2 + 1];
    pos := 0;
    EncodedNone(g);
    for i := 0 to |plaintext|
      invariant pos < encoded.Length && encoded[..pos] == Encoded(g, plaintext[..i])
    {
      EncodedNext(g, plaintext, i);
      EncodedPrefix(g, plaintext, i + 1);
      pos := EncodeChar(plaintext[i], g, encoded, pos);
    }
    assert plaintext[..|plaintext|] == plaintext;
    encoded[pos] := '\0';
  }

  lemma EncodedNone(g: Grid)
    ensures Encoded(g, "") == ""
  {
  }

  lemma EncodedNext(g: Grid, s: string, i: nat)
    requires i < |s|
    ensures Encoded(g, s[..i + 1]) == Encoded(g, s[..i]) + CharCode(g, Fold(s[i]), 5)
  {
    hide CharCode, Fold;
    assert s[..i + 1][..i] == s[..i];
  }

  lemma {:induction false} EncodedPrefix(g: Grid, s: string, i: nat)
    requires i <= |s|
    ensures |Encoded(g, s[..i])| <= |Encoded(g, s)|
    decreases |s| - i
  {
    if i == |s| {
      assert s[..i] == s;
    } else {
      hide Encoded, CharCode;
      EncodedPrefix(g, s, i + 1);
      EncodedNext(g, s, i);
    }
  }

  /** The row loop for one character. */
  method EncodeChar(plain: char, g: Grid, encoded: array<char>, start: nat) returns (pos: nat)
    requires start + |CharCode(g, Fold(plain), 5)| <= encoded.Length
    modifies encoded
    ensures pos == start + |CharCode(g, Fold(plain), 5)|
    ensures encoded[..pos] == old(encoded[..start]) + CharCode(g, Fold(plain), 5)
  {
    var ch := if 'a' <= plain <= 'z' then plain - 'a' + 'A' else plain;
    if ch == 'J' {
      ch := 'I';
    }
    assert ch == Fold(plain);
    hide *;
    pos := start;
    NoRows(g, ch);
    for row := 0 to 5
      invariant pos == start + |CharCode(g, ch, row)| <= encoded.Length
      invariant encoded[..pos] == old(encoded[..start]) + CharCode(g, ch, row)
    {
      NextRow(g, ch, row);
      CodeGrows(g, ch, row + 1, 5);
      Regroup(old(encoded[..start]), CharCode(g, ch, row), RowCode(g, row, ch));
      pos := EncodeRow(ch, g, row, encoded, pos);
    }
  }

  /** The column loop: `break` leaves the row, not the table. */
  method EncodeRow(ch: char, g: Grid, row: nat, encoded: array<char>, start: nat) returns (pos: nat)
    requires row < 5 && start + |RowCode(g, row, ch)| <= encoded.Length
    modifies encoded
    ensures pos == start + |RowCode(g, row, ch)|
    ensures encoded[..pos] == old(encoded[..start]) + RowCode(g, row, ch)
  {
    pos := start;
    for col := 0 to 5
      invariant col <= First(g[row], ch) && pos == start && encoded[..start] == old(encoded[..start])
    {
      if g[row][col] == ch {
        encoded[pos] := '1' + row as char;
        pos := pos + 1;
        encoded[pos] := '1' + col as char;
        pos := pos + 1;
        break;
      }
    }
  }

  lemma Regroup(s: string, t: string, u: string)
    ensures s + (t + u) == (s + t) + u
  {
  }

  lemma NoRows(g: Grid, c: char)
    ensures CharCode(g, c, 0) == ""
  {
  }

  lemma NextRow(g: Grid, c: char, row: nat)
    requires row < 5
    ensures CharCode(g, c, row + 1) == CharCode(g, c, row) + RowCode(g, row, c)
  {
    hide RowCode;
  }

  lemma {:induction false} CodeGrows(g: Grid, c: char, q: nat, r: nat)
    requires q <= r <= 5
    ensures |CharCode(g, c, q)| <= |CharCode(g, c, r)|
  {
    if q == r {
    } else {
      CodeGrows(g, c, q, r - 1);
    }
  }

  method PbDecode(ciphertext: string, g: Grid) returns (decoded: array<char>, pos: nat)
    requires '\0' !in ciphertext && Pairs(ciphertext)
    ensures fresh(decoded) && decoded.Length == |ciphertext| / 2 + 1
    ensures pos == |ciphertext| / 2 && decoded[..pos] == Decoded(g, ciphertext) && decoded[pos] == '\0'
    ensures forall k :: 0 <= k < pos ==>
              decoded[k] == g[ciphertext[2 * k] as int - '1' as int][ciphertext[2 * k + 1] as int - '1' as int]
  {
    decoded := new char[|ciphertext| / 2 + 1];
    pos := 0;
    var i := 0;
    while i < |ciphertext| && i + 1 < |ciphertext|
      invariant i == 2 * pos <= |ciphertext|
      invariant decoded[..pos] == Decoded(g, ciphertext)[..pos]
    {
      var row := Index(ciphertext[i]);
      var col := Index(ciphertext[i + 1]);
      decoded[pos] := g[row][col];
      pos := pos + 1;
      i := i + 2;
    }
    decoded[pos] := '\0';
  }
}
