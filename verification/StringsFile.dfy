/**
 The two commands of week6/multi_process.c together: which queues survive being written to a file and
 loaded again, and what the pipeline makes of the file that `generateStringsFile` writes.
 */
module StringsFile {
  import opened Cipher
  import opened FullPeriod
  import opened Generators
  import opened Pipeline

  /** A string that fits on one line. */
  predicate Plain(s: string) {
    '\0' !in s && '\n' !in s
  }

  function Newlines(text: string): nat {
    if text == "" then 0 else (if text[0] == '\n' then 1 else 0) + Newlines(text[1..])
  }

  lemma {:induction false} NewlinesAppend(s: string, t: string)
    ensures Newlines(s + t) == Newlines(s) + Newlines(t)
  {
    if s == "" {
      assert s + t == t;
    } else {
      assert (s + t)[1..] == s[1..] + t;
      NewlinesAppend(s[1..], t);
    }
  }

  lemma {:induction false} NoNewlines(s: string)
    requires '\n' !in s
    ensures Newlines(s) == 0
  {
    if s == "" {
    } else {
      NoNewlines(s[1..]);
    }
  }

  /** A piece ends at its first newline. */
  lemma PieceNewlines(text: string)
    requires text != ""
    ensures Newlines(text[..Piece(text, LIMIT)]) <= 1
  {
    var n := Piece(text, LIMIT);
    if text[n - 1] == '\n' {
      assert text[..n] == text[..n - 1] + "\n";
      NewlinesAppend(text[..n - 1], "\n");
      NoNewlines(text[..n - 1]);
    } else {
      NoNewlines(text[..n]);
    }
  }

  /** Loading makes at least one string for every newline. */
  lemma {:induction false} LoadedCount(text: string)
    ensures |Loaded(text)| >= Newlines(text)
    decreases |text|
  {
    if text == "" {
    } else {
      hide Loaded, Piece, Newlines, Seen, StripNewline;
      var n := Piece(text, LIMIT);
      LoadedCons(text, n);
      LoadedCount(text[n..]);
      PieceNewlines(text);
      NewlinesAppend(text[..n], text[n..]);
    }
  }

  lemma {:induction false} TextNewlines(s: seq<string>)
    ensures Newlines(Text(s)) >= |s|
  {
    if s == [] {
    } else {
      TextNewlines(s[1..]);
      NewlinesAppend(s[0], "\n");
      NewlinesAppend(s[0] + "\n", Text(s[1..]));
    }
  }

  /** Only plain strings of at most 255 characters come out of loading. */
  lemma {:induction false} LoadedPlain(text: string)
    ensures forall i :: 0 <= i < |Loaded(text)| ==> Plain(Loaded(text)[i]) && |Loaded(text)[i]| <= LIMIT
    decreases |text|
  {
    if text == "" {
    } else {
      var n := Piece(text, LIMIT);
      LoadedPlain(text[n..]);
      LinePlain(text[..n]);
    }
  }

  lemma LinePlain(piece: string)
    requires '\n' !in piece || (piece != "" && piece[|piece| - 1] == '\n' && '\n' !in piece[..|piece| - 1])
    ensures Plain(StripNewline(Seen(piece))) && |StripNewline(Seen(piece))| <= |piece|
  {
    var seen := Seen(piece);
    assert seen == piece[..|seen|];
    assert StripNewline(seen) <= seen;
    if |seen| < |piece| { assert seen <= piece[..|piece| - 1]; }
  }

  /** The piece of a text that starts with a line is known. */
  lemma LineIsPiece(x: string, rest: string)
    requires Plain(x)
    ensures |x| < LIMIT ==> Piece(x + "\n" + rest, LIMIT) == |x| + 1
    ensures |x| >= LIMIT ==> Piece(x + "\n" + rest, LIMIT) == LIMIT
  {
    var text := x + "\n" + rest;
    var n := Piece(text, LIMIT);
    assert forall i :: 0 <= i < |x| ==> text[i] == x[i];
    assert text[|x|] == '\n';
    assert forall k :: |x| < k <= |text| ==> text[..k][|x|] == '\n';
  }

  lemma LoadedLine(x: string, rest: string)
    requires Plain(x) && |x| < LIMIT
    ensures Loaded(x + "\n" + rest) == [x] + Loaded(rest)
  {
    var text := x + "\n" + rest;
    LineIsPiece(x, rest);
    assert text[..|x| + 1] == x + "\n" && text[|x| + 1..] == rest;
    assert Seen(x + "\n") == x + "\n";
    assert StripNewline(x + "\n") == x;
  }

  /** A line too long for the buffer makes more than one string. */
  lemma LoadedLongLine(x: string, s: seq<string>)
    requires Plain(x) && |x| >= LIMIT
    ensures Loaded(Text([x] + s)) != [x] + s
  {
    var text := x + "\n" + Text(s);
    assert ([x] + s)[1..] == s;
    LineIsPiece(x, Text(s));
    var after := x[LIMIT..] + "\n" + Text(s);
    assert text[LIMIT..] == after && text[..LIMIT] == x[..LIMIT];
    LoadedCount(after);
    TextNewlines(s);
    NewlinesAppend(x[LIMIT..], "\n");
    NewlinesAppend(x[LIMIT..] + "\n", Text(s));
    assert |Loaded(text)| == 1 + |Loaded(after)|;
  }

  /** The string comes back from its line. */
  predicate FitsLine(s: string) {
    Plain(s) && |s| < LIMIT
  }

  ghost predicate AllFit(s: seq<string>) {
    forall i :: 0 <= i < |s| ==> FitsLine(s[i])
  }

  lemma AllFitCons(x: string, rest: seq<string>)
    ensures AllFit([x] + rest) <==> FitsLine(x) && AllFit(rest)
  {
    hide FitsLine;
    var s := [x] + rest;
    assert s[0] == x && forall i :: 0 <= i < |rest| ==> rest[i] == s[i + 1];
  }

  lemma NotPlainFirst(x: string, rest: seq<string>)
    requires !Plain(x)
    ensures Loaded(Text([x] + rest)) != [x] + rest
  {
    hide Loaded, Text, Plain;
    var loaded := Loaded(Text([x] + rest));
    LoadedPlain(Text([x] + rest));
    assert loaded != [] ==> Plain(loaded[0]);
  }

  lemma TextCons(x: string, rest: seq<string>)
    ensures Text([x] + rest) == x + "\n" + Text(rest)
  {
    assert ([x] + rest)[1..] == rest;
  }

  lemma RoundTripCons(x: string, rest: seq<string>)
    ensures Loaded(Text([x] + rest)) == [x] + rest <==> FitsLine(x) && Loaded(Text(rest)) == rest
  {
    hide Loaded, Text, Plain;
    if !Plain(x) {
      NotPlainFirst(x, rest);
    } else if |x| < LIMIT {
      TextCons(x, rest);
      LoadedLine(x, Text(rest));
      SameTailIff(x, Loaded(Text(rest)), rest);
    } else {
      LoadedLongLine(x, rest);
    }
  }

  lemma SameTailIff<T>(x: T, s: seq<T>, t: seq<T>)
    ensures [x] + s == [x] + t <==> s == t
  {
    assert ([x] + s)[1..] == s && ([x] + t)[1..] == t;
  }

  /** A queue comes back from its own text exactly when every string is plain and fits the buffer with its newline. */
  lemma {:induction false} QueueRoundTrip(s: seq<string>)
    ensures Loaded(Text(s)) == s <==> AllFit(s)
  {
    if s == [] {
    } else {
      hide *;
      assert s == [s[0]] + s[1..];
      AllFitCons(s[0], s[1..]);
      RoundTripCons(s[0], s[1..]);
      QueueRoundTrip(s[1..]);
    }
  }

  // ----- The generated file

  predicate Generated(s: string) {
    5 <= |s| <= 10 && forall i :: 0 <= i < |s| ==> 'a' <= s[i] <= 'z'
  }

  /**
   `states` are the states of the generator before each line and after the last: every line takes one step
   for its length and one for each letter.
   */
  method GenerateStringsFile(g: Lcg31) returns (file: string, ghost strings: seq<string>, ghost states: seq<nat>)
    requires g.Valid()
    modifies g
    ensures g.Valid() && file == Text(strings)
    ensures |strings| == 10000 && forall i :: 0 <= i < |strings| ==> Generated(strings[i])
    ensures |states| == 10001 && states[0] == old(g.state) && states[10000] == g.state
    ensures forall i :: 0 <= i < 10000 ==>
              |strings[i]| == Draw(State(A6, C6, TWO31, states[i], 1), 5, 10) &&
              states[i + 1] == State(A6, C6, TWO31, states[i], |strings[i]| + 1)
    ensures forall i, j :: 0 <= i < 10000 && 0 <= j < |strings[i]| ==>
              strings[i][j] == Letter(State(A6, C6, TWO31, states[i], j + 2))
  {
    hide State, Draw, Letter, Text, Generated, Seen;
    file, strings, states := "", [], [g.state];
    NoText();
    for i := 0 to 10000
      invariant g.Valid() && file == Text(strings)
      invariant |strings| == i && |states| == i + 1 && states[0] == old(g.state) && states[i] == g.state
      invariant forall j :: 0 <= j < i ==> DrawnFrom(strings[j], states[j], states[j + 1])
    {
      var temp := new char[32];
      var length := g.GenerateRandomString(temp, 5, 10);
      SeenBefore(temp[..], length);
      LettersSeen(temp[..length]);
      TextSnoc(strings, temp[..length]);
      file := file + Seen(temp[..]) + "\n";
      strings := strings + [temp[..length]];
      states := states + [g.state];
    }
    AllDrawn(strings, states);
  }

  lemma AllDrawn(strings: seq<string>, states: seq<nat>)
    requires |states| == |strings| + 1
    requires forall j :: 0 <= j < |strings| ==> DrawnFrom(strings[j], states[j], states[j + 1])
    ensures forall i :: 0 <= i < |strings| ==>
              Generated(strings[i]) && |strings[i]| == Draw(State(A6, C6, TWO31, states[i], 1), 5, 10) &&
              states[i + 1] == State(A6, C6, TWO31, states[i], |strings[i]| + 1)
    ensures forall i, j :: 0 <= i < |strings| && 0 <= j < |strings[i]| ==>
              strings[i][j] == Letter(State(A6, C6, TWO31, states[i], j + 2))
  {
    hide State, Draw, Letter, Generated;
    forall i | 0 <= i < |strings|
      ensures
        Generated(strings[i]) && |strings[i]| == Draw(State(A6, C6, TWO31, states[i], 1), 5, 10) &&
        states[i + 1] == State(A6, C6, TWO31, states[i], |strings[i]| + 1)
      ensures forall j :: 0 <= j < |strings[i]| ==> strings[i][j] == Letter(State(A6, C6, TWO31, states[i], j + 2))
    {
      assert DrawnFrom(strings[i], states[i], states[i + 1]);
    }
  }

  /** One line and the generator before and after it. */
  ghost predicate DrawnFrom(s: string, before: nat, after: nat) {
    Generated(s) && |s| == Draw(State(A6, C6, TWO31, before, 1), 5, 10) &&
    after == State(A6, C6, TWO31, before, |s| + 1) &&
    forall j :: 0 <= j < |s| ==> s[j] == Letter(State(A6, C6, TWO31, before, j + 2))
  }

  lemma NoText()
    ensures Text([]) == ""
  {
  }

  lemma TextSnoc(s: seq<string>, x: string)
    ensures Text(s + [x]) == Text(s) + x + "\n"
  {
    TextAppend(s, [x]);
    assert Text([x]) == x + "\n";
  }

  lemma LettersSeen(s: string)
    requires 5 <= |s| <= 10 && forall i :: 0 <= i < |s| ==> 'a' <= s[i] <= 'z'
    ensures Generated(s) && Seen(s) == s
  {
    hide Seen;
  }

  /** The generated file is loaded line by line and becomes 100 outputs that together are its shift. */
  lemma GeneratedFileEncrypts(strings: seq<string>)
    requires |strings| == 10000 && forall i :: 0 <= i < |strings| ==> Generated(strings[i])
    ensures Loaded(Text(strings)) == strings
    ensures var outputs := Outputs(Chunks(strings, 100));
            |outputs| == 100 && Flatten(outputs) == Shift(Text(strings), 3) &&
            Shift(Flatten(outputs), 23) == Text(strings)
  {
    hide Outputs, Chunks, Text, Loaded, Flatten, Shift;
    forall i | 0 <= i < |strings| ensures FitsLine(strings[i]) { assert Generated(strings[i]); }
    QueueRoundTrip(strings);
    LoadedHasNoNul(Text(strings));
    ChunksExactly(strings, 100);
    ChunkingPreserves(strings, 100);
    ShiftRecovers(Text(strings));
  }
}
