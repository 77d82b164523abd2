/**
 The encryption pipeline of week6/multi_process.c: the lines of a file are queued, written out again in
 chunk files, and each chunk file goes through the cipher. Files are the strings they hold.
 */
module Pipeline {
  import opened Arithmetic
  import opened Cipher
  import opened StringQueue

  function Flatten<T>(s: seq<seq<T>>): seq<T> {
    if s == [] then [] else s[0] + Flatten(s[1..])
  }

  /** The strings of a queue as a file, one line each. */
  function Text(s: seq<string>): string {
    if s == [] then "" else s[0] + "\n" + Text(s[1..])
  }

  lemma {:induction false} TextAppend(s: seq<string>, t: seq<string>)
    ensures Text(s + t) == Text(s) + Text(t)
  {
    if s == [] {
      assert s + t == t;
    } else {
      assert (s + t)[1..] == s[1..] + t;
      TextAppend(s[1..], t);
    }
  }

  // ----- Chunks

  /** The queue cut in pieces of `size` strings. */
  function Chunks(s: seq<string>, size: nat): (c: seq<seq<string>>)
    requires size > 0
    ensures s == [] <==> c == []
    decreases |s|
  {
    if s == [] then []
    else if |s| <= size then [s]
    else [s[..size]] + Chunks(s[size..], size)
  }

  lemma ChunksStep(s: seq<string>, size: nat, k: nat)
    requires s != [] && size > 0 && k == if size <= |s| then size else |s|
    ensures Chunks(s, size) == [s[..k]] + Chunks(s[k..], size)
  {
    assert s[..|s|] == s && s[|s|..] == [];
  }

  lemma FlattenCons<T>(x: seq<T>, rest: seq<seq<T>>)
    ensures Flatten([x] + rest) == x + Flatten(rest)
  {
    assert ([x] + rest)[1..] == rest;
  }

  /** There are ⌈|s| / size⌉ chunks, all but the last hold `size` strings, and together they are the queue. */
  lemma {:induction false} ChunksExactly(s: seq<string>, size: nat)
    requires size > 0
    ensures |Chunks(s, size)| == (|s| + size - 1) / size
    ensures forall i :: 0 <= i < |Chunks(s, size)| - 1 ==> |Chunks(s, size)[i]| == size
    ensures s != [] ==> 0 < |Chunks(s, size)[|Chunks(s, size)| - 1]| <= size
    ensures Flatten(Chunks(s, size)) == s
    decreases |s|
  {
    CeilingStep(|s|, size);
    if s == [] {
    } else {
      hide Chunks, Flatten;
      var k := if size <= |s| then size else |s|;
      ChunksStep(s, size, k);
      FlattenCons(s[..k], Chunks(s[k..], size));
      ChunksExactly(s[k..], size);
      CeilingRest(|s|, size, k);
    }
  }

  lemma CeilingRest(n: nat, size: nat, k: nat)
    requires n > 0 && size > 0 && k == if size <= n then size else n
    ensures (n + size - 1) / size == 1 + (n - k + size - 1) / size
  {
    CeilingStep(n, size);
    CeilingStep(n - k, size);
  }

  lemma CeilingStep(n: nat, size: nat)
    requires size > 0
    ensures n > size ==> (n + size - 1) / size == 1 + (n - size + size - 1) / size
    ensures 0 < n <= size ==> (n + size - 1) / size == 1
    ensures n == 0 ==> (n + size - 1) / size == 0
  {
    if n > size {
      var q, r := (n - 1) / size, (n - 1) % size;
      DivMod(n - 1, size);
      MulAdd(q, 1, size);
      DivModUnique(n + size - 1, size, q + 1, r);
    }
  }

  /** What the child processes write, one file for each chunk. */
  function Outputs(chunks: seq<seq<string>>): (r: seq<string>)
    ensures |r| == |chunks| && forall i :: 0 <= i < |r| ==> r[i] == Ciphered(Text(chunks[i]))
  {
    seq(|chunks|, i requires 0 <= i < |chunks| => Ciphered(Text(chunks[i])))
  }

  lemma OutputsCons(chunk: seq<string>, rest: seq<seq<string>>)
    ensures Outputs([chunk] + rest) == [Ciphered(Text(chunk))] + Outputs(rest)
  {
    hide Ciphered, Text;
  }

  /** The cipher outputs put together are the shift of the whole text: chunking and line splits do not show. */
  lemma {:induction false} ChunkingPreserves(s: seq<string>, size: nat)
    requires size > 0 && '\0' !in Text(s)
    ensures Flatten(Outputs(Chunks(s, size))) == Shift(Text(s), 3)
    decreases |s|
  {
    hide *;
    if s == [] {
      NothingChunked(size);
    } else {
      var k := if size <= |s| then size else |s|;
      var first, rest := s[..k], s[k..];
      ChunksStep(s, size, k);
      OutputsCons(first, Chunks(rest, size));
      FlattenCons(Ciphered(Text(first)), Outputs(Chunks(rest, size)));
      TextAppend(first, rest);
      assert s == first + rest;
      CipheredIsShifted(Text(first));
      ChunkingPreserves(rest, size);
      ShiftAppend(Text(first), Text(rest), 3);
    }
  }

  lemma NothingChunked(size: nat)
    requires size > 0
    ensures Flatten(Outputs(Chunks([], size))) == Shift(Text([]), 3)
  {
  }

  // ----- Loading

  function StripNewline(s: string): string {
    if s != "" && s[|s| - 1] == '\n' then s[..|s| - 1] else s
  }

  /** The strings queued for a file. */
  function Loaded(text: string): seq<string>
    decreases |text|
  {
    if text == "" then []
    else
      var n := Piece(text, LIMIT);
      [StripNewline(Seen(text[..n]))] + Loaded(text[n..])
  }

  predicate NewlineFrom(text: string, i: nat)
    requires i + LIMIT <= |text|
  {
    '\n' in text[i..i + LIMIT]
  }

  /** Every line has at most 254 characters and a newline, the last line included. */
  ghost predicate LinesFit(text: string) {
    (text == "" || text[|text| - 1] == '\n') &&
    forall i :: 0 <= i <= |text| - LIMIT ==> NewlineFrom(text, i)
  }

  lemma LoadedText(text: string, n: nat)
    requires text != "" && n == Piece(text, LIMIT)
    ensures Text(Loaded(text)) == StripNewline(Seen(text[..n])) + "\n" + Text(Loaded(text[n..]))
  {
    hide Piece, Seen, StripNewline;
  }

  lemma {:induction false} LoadedHasNoNul(text: string)
    ensures '\0' !in Text(Loaded(text))
    decreases |text|
  {
    if text == "" {
    } else {
      hide Text, Loaded, Piece, Seen;
      var n := Piece(text, LIMIT);
      LoadedText(text, n);
      LoadedHasNoNul(text[n..]);
    }
  }

  lemma {:induction false} LoadedNoShorter(text: string)
    requires '\0' !in text
    ensures |Text(Loaded(text))| >= |text|
    decreases |text|
  {
    if text == "" {
    } else {
      hide Text, Loaded, Piece, Seen;
      var n := Piece(text, LIMIT);
      LoadedText(text, n);
      LoadedNoShorter(text[n..]);
    }
  }

  lemma LinesFitStep(text: string, n: nat)
    requires 0 < n <= |text| && n <= LIMIT && text[n - 1] == '\n'
    ensures LinesFit(text) <==> LinesFit(text[n..])
  {
    var rest := text[n..];
    forall i | 0 <= i <= |rest| - LIMIT ensures NewlineFrom(rest, i) == NewlineFrom(text, n + i) {
      assert rest[i..i + LIMIT] == text[n + i..n + i + LIMIT];
    }
    forall i | 0 <= i <= |text| - LIMIT && i < n ensures NewlineFrom(text, i) {
      assert text[i..i + LIMIT][n - 1 - i] == '\n';
    }
    if LinesFit(text) {
      forall i | 0 <= i <= |rest| - LIMIT ensures NewlineFrom(rest, i) {
        assert NewlineFrom(text, n + i);
      }
    }
    if LinesFit(rest) {
      forall i | 0 <= i <= |text| - LIMIT ensures NewlineFrom(text, i) {
        if i >= n { assert NewlineFrom(rest, i - n); }
      }
    }
  }

  /** Loading a file and writing it out again keeps it exactly when it has no NUL and its lines fit. */
  lemma {:induction false} ReloadExactly(text: string)
    ensures Text(Loaded(text)) == text <==> '\0' !in text && LinesFit(text)
    decreases |text|
  {
    LoadedHasNoNul(text);
    if text != "" && '\0' !in text {
      var n := Piece(text, LIMIT);
      if text[n - 1] == '\n' {
        ReloadExactly(text[n..]);
        LinesFitStep(text, n);
        ReloadLine(text, n);
      } else {
        LoadedNoShorter(text[n..]);
        ReloadSplit(text, n);
      }
    }
  }

  lemma ReloadLine(text: string, n: nat)
    requires text != "" && '\0' !in text && n == Piece(text, LIMIT) && text[n - 1] == '\n'
    ensures Text(Loaded(text)) == text <==> Text(Loaded(text[n..])) == text[n..]
  {
    LoadedText(text, n);
    Unstripped(text[..n]);
    SameTextRest(text, n, Text(Loaded(text[n..])));
  }

  lemma Unstripped(line: string)
    requires line != "" && '\0' !in line && line[|line| - 1] == '\n'
    ensures StripNewline(Seen(line)) + "\n" == line
  {
  }

  lemma SameTextRest(text: string, n: nat, rest: string)
    requires n <= |text|
    ensures text[..n] + rest == text <==> rest == text[n..]
  {
    assert rest == (text[..n] + rest)[n..];
    assert text == text[..n] + text[n..];
  }

  lemma ReloadSplit(text: string, n: nat)
    requires text != "" && '\0' !in text && n == Piece(text, LIMIT) && text[n - 1] != '\n'
    requires |Text(Loaded(text[n..]))| >= |text[n..]|
    ensures Text(Loaded(text)) != text && !LinesFit(text)
  {
    LoadedText(text, n);
    if n == LIMIT {
      assert text[..n] == text[0..0 + LIMIT];
      assert !NewlineFrom(text, 0);
    }
  }

  /** The whole run enciphers the file exactly when it has no NUL and its lines fit; then 23 more recovers it. */
  lemma EncryptExactly(text: string, size: nat)
    requires size > 0
    ensures var output := Flatten(Outputs(Chunks(Loaded(text), size)));
            (output == Shift(text, 3) <==> '\0' !in text && LinesFit(text)) &&
            (Shift(output, 23) == text <==> '\0' !in text && LinesFit(text))
  {
    hide Outputs, Chunks, Text, Loaded, Flatten, LinesFit, Shift;
    var s := Loaded(text);
    LoadedHasNoNul(text);
    ChunkingPreserves(s, size);
    ReloadExactly(text);
    ShiftRecovers(text);
    ShiftRecovers(Text(s));
  }

  // ----- What is queued for any text

  function WithoutNewlines(text: string): string {
    if text == "" then "" else (if text[0] == '\n' then "" else [text[0]]) + WithoutNewlines(text[1..])
  }

  lemma {:induction false} WithoutNewlinesAppend(s: string, t: string)
    ensures WithoutNewlines(s + t) == WithoutNewlines(s) + WithoutNewlines(t)
  {
    if s == "" {
      assert s + t == t;
    } else {
      var first := if s[0] == '\n' then "" else [s[0]];
      assert (s + t)[1..] == s[1..] + t;
      WithoutNewlinesAppend(s[1..], t);
      assert WithoutNewlines(s + t) == first + WithoutNewlines(s[1..] + t);
      assert WithoutNewlines(s) == first + WithoutNewlines(s[1..]);
    }
  }

  lemma {:induction false} NothingDropped(s: string)
    requires '\n' !in s
    ensures WithoutNewlines(s) == s
  {
    if s == "" {
    } else {
      NothingDropped(s[1..]);
      assert s == [s[0]] + s[1..];
    }
  }

  /** A piece has no newline but a last one. */
  lemma PieceWithoutNewline(piece: string)
    requires '\n' !in piece || (piece != "" && piece[|piece| - 1] == '\n' && '\n' !in piece[..|piece| - 1])
    ensures StripNewline(piece) == WithoutNewlines(piece)
  {
    if '\n' !in piece {
      NothingDropped(piece);
    } else {
      var body := piece[..|piece| - 1];
      assert piece == body + "\n";
      NothingDropped(body);
      WithoutNewlinesAppend(body, "\n");
      assert WithoutNewlines("\n") == "";
    }
  }

  lemma LoadedCons(text: string, n: nat)
    requires text != "" && n == Piece(text, LIMIT)
    ensures Loaded(text) == [StripNewline(Seen(text[..n]))] + Loaded(text[n..]) && text == text[..n] + text[n..]
  {
    hide Piece, Seen, StripNewline;
  }

  /** Whatever the lengths of its lines and its end, the strings queued for a text are the text without its newlines. */
  lemma {:induction false} LoadedKeepsCharacters(text: string)
    requires '\0' !in text
    ensures Flatten(Loaded(text)) == WithoutNewlines(text)
    decreases |text|
  {
    if text == "" {
    } else {
      hide Loaded, Piece, Seen, StripNewline, WithoutNewlines, Flatten;
      var n := Piece(text, LIMIT);
      LoadedCons(text, n);
      LoadedKeepsCharacters(text[n..]);
      FlattenCons(StripNewline(text[..n]), Loaded(text[n..]));
      PieceWithoutNewline(text[..n]);
      WithoutNewlinesAppend(text[..n], text[n..]);
    }
  }

  lemma {:induction false} FlattenAppend<T>(s: seq<seq<T>>, t: seq<seq<T>>)
    ensures Flatten(s + t) == Flatten(s) + Flatten(t)
  {
    if s == [] {
      assert s + t == t;
    } else {
      assert (s + t)[1..] == s[1..] + t;
      FlattenAppend(s[1..], t);
      assert Flatten(s + t) == s[0] + Flatten(s[1..] + t);
      assert Flatten(s) == s[0] + Flatten(s[1..]);
    }
  }

  // ----- The program

  method Strlen(line: array<char>) returns (len: nat)
    requires '\0' in line[..]
    ensures len == Cipher.Strlen(line[..]) && len < line.Length
  {
    len := 0;
    while line[len] != '\0'
      invariant len < line.Length && len <= Cipher.Strlen(line[..])
      decreases line.Length - len
    {
      len := len + 1;
    }
  }

  /** Reads one line: the piece without its newline. */
  method LoadLine(line: array<char>, text: string) returns (n: nat)
    requires line.Length == LIMIT + 1
    modifies line
    ensures n == Piece(text, LIMIT) && Seen(line[..]) == StripNewline(Seen(text[..n]))
  {
    hide Piece, Cipher.Strlen;
    n := Fgets(line, text);
    SeenBefore(line[..], n);
    var len := Strlen(line);
    if len > 0 && line[len - 1] == '\n' {
      ghost var seen := line[..len];
      line[len - 1] := '\0';
      SeenBefore(line[..], len - 1);
      assert line[..][..len - 1] == seen[..len - 1];
    }
  }

  method LoadStringsIntoQueue(text: string, q: Queue)
    requires q.Valid()
    modifies q, q.Repr()
    ensures q.Valid() && fresh(q.Repr() - old(q.Repr()))
    ensures q.Contents() == old(q.Contents()) + Loaded(text)
    ensures '\0' !in text ==> Flatten(q.Contents()) == Flatten(old(q.Contents())) + WithoutNewlines(text)
  {
    hide Loaded, Seen, StripNewline, Piece, Queue.Valid, DataOf, Flatten, WithoutNewlines;
    var line := new char[256];
    var rest := text;
    while rest != ""
      invariant q.Valid() && fresh(q.Repr() - old(q.Repr()))
      invariant q.Contents() + Loaded(rest) == old(q.Contents()) + Loaded(text)
      decreases |rest|
    {
      hide *;
      var n := LoadLine(line, rest);
      LoadNext(q.Contents(), rest);
      q.Enqueue(Seen(line[..]));
      rest := rest[n..];
    }
    NothingLoaded();
    FlattenAppend(old(q.Contents()), Loaded(text));
    if '\0' !in text { LoadedKeepsCharacters(text); }
  }

  lemma NothingLoaded()
    ensures Loaded("") == []
  {
  }

  lemma LoadNext(s: seq<string>, rest: string)
    requires rest != ""
    ensures var n := Piece(rest, LIMIT);
            s + Loaded(rest) == (s + [StripNewline(Seen(rest[..n]))]) + Loaded(rest[n..])
  {
    hide Piece, Seen, StripNewline;
  }

  method WriteChunkToFile(q: Queue, count: int) returns (written: int, file: string)
    requires q.Valid()
    modifies q
    ensures q.Valid() && q.Repr() <= old(q.Repr())
    ensures written == if count <= 0 then 0 else if count <= |old(q.Contents())| then count else |old(q.Contents())|
    ensures file == Text(old(q.Contents())[..written]) && q.Contents() == old(q.Contents())[written..]
  {
    hide *;
    ghost var s := q.Contents();
    file := "";
    written := 0;
    NothingMoved(s);
    while !q.IsEmptyQueue() && written < count
      invariant q.Valid() && q.Repr() <= old(q.Repr())
      invariant 0 <= written && (written <= count || written == 0)
      invariant Moved(s, written, q.Contents(), file)
      decreases |q.Contents()|
    {
      file := MoveOne(q, s, written, file);
      written := written + 1;
    }
    MovedAll(s, written, count, q.Contents(), file);
  }

  /** `n` strings have gone from the queue to the file. */
  ghost predicate Moved(s: seq<string>, n: nat, queue: seq<string>, file: string) {
    n <= |s| && queue == s[n..] && file == Text(s[..n])
  }

  /** One turn of the loop: a string goes from the queue to the file. */
  method MoveOne(q: Queue, ghost s: seq<string>, ghost n: nat, file: string) returns (file': string)
    requires q.Valid() && Moved(s, n, q.Contents(), file) && q.Contents() != []
    modifies q
    ensures q.Valid() && q.Repr() <= old(q.Repr()) && |q.Contents()| < |old(q.Contents())|
    ensures Moved(s, n + 1, q.Contents(), file')
  {
    hide *;
    MoveNext(s, n, q.Contents(), file);
    var str := q.Dequeue();
    file' := file + (str.value + "\n");
  }

  lemma NothingMoved(s: seq<string>)
    ensures Moved(s, 0, s, "")
  {
    assert s[..0] == [] && s[0..] == s;
  }

  lemma MovedAll(s: seq<string>, n: nat, count: int, queue: seq<string>, file: string)
    requires Moved(s, n, queue, file) && (n <= count || n == 0) && (queue == [] || n >= count)
    ensures n == if count <= 0 then 0 else if count <= |s| then count else |s|
    ensures n <= |s| && queue == s[n..] && file == Text(s[..n])
  {
    hide Text;
  }

  lemma MoveNext(s: seq<string>, n: nat, queue: seq<string>, file: string)
    requires Moved(s, n, queue, file) && queue != []
    ensures Moved(s, n + 1, queue[1..], file + (queue[0] + "\n"))
  {
    assert s[..n + 1] == s[..n] + [s[n]];
    TextAppend(s[..n], [s[n]]);
    assert Text([s[n]]) == s[n] + "\n";
  }

  method ProcessInChunks(q: Queue, chunkSize: int) returns (chunkIndex: nat, outputs: seq<string>)
    requires q.Valid()
    modifies q
    ensures q.Valid() && q.Repr() <= old(q.Repr()) && chunkIndex == |outputs|
    ensures chunkSize > 0 ==> outputs == Outputs(Chunks(old(q.Contents()), chunkSize)) && q.Contents() == []
    ensures chunkSize <= 0 ==> outputs == [] && q.Contents() == old(q.Contents())
  {
    hide Outputs, Chunks, Ciphered, Text, DataOf;
    chunkIndex, outputs := 0, [];
    while !q.IsEmptyQueue()
      invariant q.Valid() && q.Repr() <= old(q.Repr()) && chunkIndex == |outputs|
      invariant chunkSize > 0 ==>
        outputs + Outputs(Chunks(q.Contents(), chunkSize)) == Outputs(Chunks(old(q.Contents()), chunkSize))
      invariant chunkSize <= 0 ==> outputs == [] && q.Contents() == old(q.Contents())
      decreases |q.Contents()|
    {
      hide *;
      ghost var s := q.Contents();
      var actualCount, file := WriteChunkToFile(q, chunkSize);
      if actualCount == 0 {
        break;
      }
      var output := CipherFile(file);
      OutputsNext(s, chunkSize, outputs);
      outputs := outputs + [output];
      chunkIndex := chunkIndex + 1;
    }
    if chunkSize > 0 && q.IsEmptyQueue() { NoOutputs(chunkSize); }
  }

  lemma NoOutputs(size: nat)
    requires size > 0
    ensures Outputs(Chunks([], size)) == []
  {
  }

  lemma OutputsNext(s: seq<string>, size: nat, outputs: seq<string>)
    requires s != [] && size > 0
    ensures var k := if size <= |s| then size else |s|;
            outputs + Outputs(Chunks(s, size)) == (outputs + [Ciphered(Text(s[..k]))]) + Outputs(Chunks(s[k..], size))
  {
    hide *;
    var k := if size <= |s| then size else |s|;
    ChunksStep(s, size, k);
    OutputsCons(s[..k], Chunks(s[k..], size));
  }

  /** The `encrypt` command. */
  method Encrypt(text: string) returns (outputs: seq<string>)
    ensures outputs == Outputs(Chunks(Loaded(text), 100))
  {
    var q := new Queue();
    LoadStringsIntoQueue(text, q);
    assert [] + Loaded(text) == Loaded(text);
    var chunkIndex;
    chunkIndex, outputs := ProcessInChunks(q, 100);
    q.FreeQueue();
  }
}
