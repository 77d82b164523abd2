/**
 The line cipher of week6/cipher.c: a file is read by `fgets` in pieces of at most 255 characters, the
 letters of each piece are shifted in place by 3, and the piece is written out.
 */
module Cipher {
  import opened Arithmetic

  /** The most characters one `fgets` call with a 256-byte buffer takes. */
  const LIMIT := 255

  // ----- The shift

  predicate IsAlpha(c: char) {
    'a' <= c <= 'z' || 'A' <= c <= 'Z'
  }

  function Base(c: char): (b: char)
    ensures b == 'a' || b == 'A'
    ensures IsAlpha(c) ==> b <= c <= b + 25 as char
  {
    if 'a' <= c <= 'z' then 'a' else 'A'
  }

  function ShiftChar(c: char, k: nat): (r: char)
    ensures IsAlpha(r) == IsAlpha(c)
    ensures IsAlpha(c) ==> Base(r) == Base(c) && (r as int - Base(c) as int) == (c as int - Base(c) as int + k) % 26
    ensures r == '\0' <==> c == '\0'
  {
    if IsAlpha(c) then (Base(c) as int + (c as int - Base(c) as int + k) % 26) as char else c
  }

  /** The shift by 3, letter by letter: x, y and z come round to a, b and c, and nothing but a letter changes. */
  lemma ShiftCharBy3(c: char)
    ensures 'a' <= c <= 'w' || 'A' <= c <= 'W' ==> ShiftChar(c, 3) as int == c as int + 3
    ensures 'x' <= c <= 'z' || 'X' <= c <= 'Z' ==> ShiftChar(c, 3) as int == c as int - 23
    ensures !('a' <= c <= 'z' || 'A' <= c <= 'Z') ==> ShiftChar(c, 3) == c
  {
  }

  function Shift(s: string, k: nat): (r: string)
    ensures |r| == |s| && forall i :: 0 <= i < |s| ==> r[i] == ShiftChar(s[i], k)
  {
    seq(|s|, i requires 0 <= i < |s| => ShiftChar(s[i], k))
  }

  lemma ShiftAppend(s: string, t: string, k: nat)
    ensures Shift(s + t, k) == Shift(s, k) + Shift(t, k)
  {
  }

  lemma RemainderTwice(x: nat, j: nat, k: nat)
    ensures ((x + j) % 26 + k) % 26 == (x + (j + k)) % 26
  {
    var q, r := (x + j) / 26, (x + j) % 26;
    ModAddMultiple(r + k, 26, q);
    assert x + (j + k) == (r + k) + q * 26;
  }

  lemma ShiftCharTwice(c: char, j: nat, k: nat)
    ensures ShiftChar(ShiftChar(c, j), k) == ShiftChar(c, j + k)
  {
    if IsAlpha(c) { RemainderTwice((c as int - Base(c) as int) as nat, j, k); }
  }

  lemma ShiftTwice(s: string, j: nat, k: nat)
    ensures Shift(Shift(s, j), k) == Shift(s, j + k)
  {
    forall i | 0 <= i < |s| ensures Shift(Shift(s, j), k)[i] == Shift(s, j + k)[i] {
      ShiftCharTwice(s[i], j, k);
    }
  }

  /** 26 is once round the alphabet. */
  lemma ShiftRound(s: string)
    ensures Shift(s, 26) == s
  {
  }

  /** A shift by 23 recovers the text. */
  lemma ShiftRecovers(s: string)
    ensures Shift(Shift(s, 3), 23) == s
  {
    hide *;
    ShiftTwice(s, 3, 23);
    ShiftRound(s);
  }

  // ----- C strings and lines

  /** The length of the C string stored in a buffer. */
  function Strlen(s: string): (n: nat)
    ensures n <= |s| && (forall i :: 0 <= i < n ==> s[i] != '\0') && (n < |s| ==> s[n] == '\0')
  {
    if s == "" || s[0] == '\0' then 0 else 1 + Strlen(s[1..])
  }

  /** The characters a C string function sees. */
  function Seen(s: string): (r: string)
    ensures r <= s && (|r| < |s| ==> s[|r|] == '\0')
    ensures '\0' !in r && |r| <= |s| && (r == s <==> '\0' !in s) && (|r| == |s| <==> '\0' !in s)
  {
    var n := Strlen(s);
    assert n < |s| ==> s[n] in s;
    s[..n]
  }

  /** What one `fgets` call takes: up to and including the first newline, and at most `limit` characters. */
  function Piece(text: string, limit: nat): (n: nat)
    ensures n <= limit && n <= |text| && (text != "" && limit > 0 ==> n > 0)
    ensures '\n' !in text[..n] || (n > 0 && text[n - 1] == '\n' && '\n' !in text[..n - 1])
    ensures '\n' !in text[..n] ==> n == limit || n == |text|
  {
    if text == "" || limit == 0 then 0
    else if text[0] == '\n' then 1
    else
      var n := Piece(text[1..], limit - 1);
      assert text[..n + 1] == [text[0]] + text[1..][..n];
      assert n > 0 ==> text[..n] == [text[0]] + text[1..][..n - 1];
      n + 1
  }

  /** Only the characters before the first NUL matter. */
  lemma SeenBefore(s: string, n: nat)
    requires n < |s| && s[n] == '\0'
    ensures Seen(s) == Seen(s[..n])
  {
    hide Strlen;
    var m := Strlen(s[..n]);
    assert forall i :: 0 <= i < n ==> s[..n][i] == s[i];
    assert s[..n][..m] == s[..m];
  }

  /** `fgets`: fills the buffer with the next piece and a NUL. */
  method Fgets(line: array<char>, text: string) returns (n: nat)
    requires line.Length == LIMIT + 1
    modifies line
    ensures n == Piece(text, LIMIT)
    ensures line[..n] == text[..n] && line[n] == '\0'
  {
    n := Piece(text, LIMIT);
    for i := 0 to n
      invariant line[..i] == text[..i]
    {
      line[i] := text[i];
    }
    line[n] := '\0';
  }

  // ----- The cipher

  /** The in-place loop over one line. */
  method CipherLine(line: array<char>)
    requires '\0' in line[..]
    modifies line
    ensures var n := Strlen(old(line[..]));
            line[..] == Shift(old(line[..n]), 3) + old(line[n..])
    ensures Seen(line[..]) == Shift(Seen(old(line[..])), 3) && line[..][Strlen(old(line[..]))] == '\0'
    ensures forall i :: 0 <= i < Strlen(old(line[..])) ==>
              var c, r := old(line[i]), line[i];
              ('a' <= c <= 'w' || 'A' <= c <= 'W' ==> r as int == c as int + 3) &&
              ('x' <= c <= 'z' || 'X' <= c <= 'Z' ==> r as int == c as int - 23) &&
              (!('a' <= c <= 'z' || 'A' <= c <= 'Z') ==> r == c)
  {
    hide Strlen, Shift, ShiftChar, Seen;
    ghost var before := line[..];
    var i := 0;
    while line[i] != '\0'
      invariant i < line.Length && i <= Strlen(before)
      invariant forall j :: 0 <= j < i ==> line[j] == ShiftChar(before[j], 3)
      invariant forall j :: i <= j < line.Length ==> line[j] == before[j]
      decreases line.Length - i
    {
      LetterShifted(line[i]);
      if IsAlpha(line[i]) {
        var base := if 'a' <= line[i] <= 'z' then 'a' else 'A';
        line[i] := (base as int + (line[i] as int - base as int + 3) % 26) as char;
      }
      i := i + 1;
    }
    LineShifted(before, line[..], i);
  }

  lemma LetterShifted(c: char)
    ensures ShiftChar(c, 3) ==
            if IsAlpha(c) then
              var base := if 'a' <= c <= 'z' then 'a' else 'A';
              (base as int + (c as int - base as int + 3) % 26) as char
            else c
  {
  }

  /** What the loop over a line has done when it comes to the NUL. */
  lemma LineShifted(before: string, after: string, n: nat)
    requires n < |before| == |after| && before[n] == '\0' && n <= Strlen(before)
    requires forall j :: 0 <= j < n ==> after[j] == ShiftChar(before[j], 3)
    requires forall j :: n <= j < |before| ==> after[j] == before[j]
    ensures n == Strlen(before) && after == Shift(before[..n], 3) + before[n..]
    ensures Seen(after) == Shift(Seen(before), 3) && after[n] == '\0'
    ensures forall i :: 0 <= i < n ==>
              ('a' <= before[i] <= 'w' || 'A' <= before[i] <= 'W' ==> after[i] as int == before[i] as int + 3) &&
              ('x' <= before[i] <= 'z' || 'X' <= before[i] <= 'Z' ==> after[i] as int == before[i] as int - 23) &&
              (!('a' <= before[i] <= 'z' || 'A' <= before[i] <= 'Z') ==> after[i] == before[i])
  {
    hide Strlen, Shift, ShiftChar, Seen;
    assert Seen(before) == before[..n];
    forall i | 0 <= i < n
      ensures
        ('a' <= before[i] <= 'w' || 'A' <= before[i] <= 'W' ==> after[i] as int == before[i] as int + 3) &&
        ('x' <= before[i] <= 'z' || 'X' <= before[i] <= 'Z' ==> after[i] as int == before[i] as int - 23) &&
        (!('a' <= before[i] <= 'z' || 'A' <= before[i] <= 'Z') ==> after[i] == before[i])
    {
      ShiftCharBy3(before[i]);
    }
    assert Seen(after) == after[..n];
  }

  /** The text the program writes for a file. */
  function Ciphered(text: string): string
    decreases |text|
  {
    if text == "" then ""
    else
      var n := Piece(text, LIMIT);
      Shift(Seen(text[..n]), 3) + Ciphered(text[n..])
  }

  method CipherFile(text: string) returns (output: string)
    ensures output == Ciphered(text)
    ensures '\0' !in text ==>
              |output| == |text| && forall i :: 0 <= i < |text| ==>
                ('a' <= text[i] <= 'w' || 'A' <= text[i] <= 'W' ==> output[i] as int == text[i] as int + 3) &&
                ('x' <= text[i] <= 'z' || 'X' <= text[i] <= 'Z' ==> output[i] as int == text[i] as int - 23) &&
                (!('a' <= text[i] <= 'z' || 'A' <= text[i] <= 'Z') ==> output[i] == text[i])
  {
    hide Ciphered, Seen, Shift, Piece;
    var line := new char[256];
    var rest := text;
    output := "";
    CipheredNone();
    while rest != ""
      invariant output + Ciphered(rest) == Ciphered(text)
      decreases |rest|
    {
      CipheredStep(rest, Piece(rest, LIMIT));
      var n := CipherPiece(line, rest);
      output := output + Seen(line[..]);
      rest := rest[n..];
    }
    CipheredChars(text);
  }

  /** The output of a file without NUL, character by character. */
  lemma CipheredChars(text: string)
    ensures '\0' !in text ==>
              |Ciphered(text)| == |text| && forall i :: 0 <= i < |text| ==>
                var c, r := text[i], Ciphered(text)[i];
                ('a' <= c <= 'w' || 'A' <= c <= 'W' ==> r as int == c as int + 3) &&
                ('x' <= c <= 'z' || 'X' <= c <= 'Z' ==> r as int == c as int - 23) &&
                (!('a' <= c <= 'z' || 'A' <= c <= 'Z') ==> r == c)
  {
    hide Ciphered, ShiftChar;
    CipheredIsShifted(text);
    if '\0' !in text {
      forall i | 0 <= i < |text|
        ensures
          var c, r := text[i], Ciphered(text)[i];
          ('a' <= c <= 'w' || 'A' <= c <= 'W' ==> r as int == c as int + 3) &&
          ('x' <= c <= 'z' || 'X' <= c <= 'Z' ==> r as int == c as int - 23) &&
          (!('a' <= c <= 'z' || 'A' <= c <= 'Z') ==> r == c)
      {
        ShiftCharBy3(text[i]);
      }
    }
  }

  lemma CipheredNone()
    ensures Ciphered("") == ""
  {
  }

  /** One turn of the loop: read a piece and encipher it in the buffer, which `fputs` then writes out. */
  method CipherPiece(line: array<char>, text: string) returns (n: nat)
    requires line.Length == LIMIT + 1
    modifies line
    ensures n == Piece(text, LIMIT) && Seen(line[..]) == Shift(Seen(text[..n]), 3)
  {
    hide Piece, Seen, Shift, Strlen;
    n := Fgets(line, text);
    SeenBefore(line[..], n);
    CipherLine(line);
  }

  /** The text is its first piece and the rest, and so is the output. */
  lemma CipheredStep(text: string, n: nat)
    requires text != "" && n == Piece(text, LIMIT)
    ensures 0 < n <= |text| && text == text[..n] + text[n..]
    ensures Ciphered(text) == Shift(Seen(text[..n]), 3) + Ciphered(text[n..])
  {
    hide Piece, Shift, Seen;
  }

  lemma {:induction false} CipheredLength(text: string)
    ensures |Ciphered(text)| <= |text| && '\0' !in Ciphered(text)
    ensures '\0' in text ==> |Ciphered(text)| < |text|
    decreases |text|
  {
    if text == "" {
    } else {
      hide Ciphered, Piece, Seen, Shift;
      var n := Piece(text, LIMIT);
      CipheredStep(text, n);
      CipheredLength(text[n..]);
      ShiftKeepsNul(Seen(text[..n]));
    }
  }

  lemma ShiftKeepsNul(s: string)
    ensures '\0' in Shift(s, 3) <==> '\0' in s
  {
    if '\0' in s {
      var i :| 0 <= i < |s| && s[i] == '\0';
      assert Shift(s, 3)[i] == '\0';
    }
  }

  lemma {:induction false} CipheredWithoutNul(text: string)
    requires '\0' !in text
    ensures Ciphered(text) == Shift(text, 3)
    decreases |text|
  {
    if text == "" {
    } else {
      hide Ciphered, Piece, Seen, Shift;
      var n := Piece(text, LIMIT);
      CipheredStep(text, n);
      CipheredWithoutNul(text[n..]);
      ShiftAppend(text[..n], text[n..], 3);
    }
  }

  /** The 255-character splits never show, and the output is the shifted file unless the file holds a NUL. */
  lemma CipheredIsShifted(text: string)
    ensures Ciphered(text) == Shift(text, 3) <==> '\0' !in text
  {
    if '\0' in text { CipheredLength(text); } else { CipheredWithoutNul(text); }
  }
}
