/** The REPL line editor as a zipper with an unbounded history, and what navigation promises. */
module LineSpec {
  import opened Bytes

  const HIST_CAP := 50
  const HIST_MAX_LEN := 512

  // History: an unbounded list of which only the last 50 entries can be recalled.

  function Push(hist: seq<Bytes>, line: Bytes): seq<Bytes> {
    if line == [] || (hist != [] && hist[|hist| - 1] == line) then hist
    else hist + [Take(line, HIST_MAX_LEN)]
  }

  /** Age 1 is the most recent entry. */
  function Recall(hist: seq<Bytes>, age: nat): Option<Bytes> {
    if age == 0 || age > Min(|hist|, HIST_CAP) then None else Some(hist[|hist| - age])
  }

  // The line: what stands before the cursor and what stands after it.

  datatype Zipper = Zipper(left: Bytes, right: Bytes) {
    function Line(): Bytes { left + right }
  }

  function AtEnd(line: Bytes): Zipper {
    Zipper(line, [])
  }

  datatype Editor = Editor(zip: Zipper, pos: nat, saved: Bytes)

  const EMPTY := Editor(Zipper([], []), 0, [])

  datatype Key =
    | Enter | CtrlD | CtrlC | Home | End | KillEnd | KillAll | Backspace | Delete
    | Up | Down | Right | Left | Insert(c: Byte) | Ignored | Eof

  datatype Parsed = Parsed(key: Key, consumed: nat)

  /** What an escape sequence means, and how many bytes of it are read. */
  function ParseEscape(s: Bytes): (p: Parsed)
    requires s != []
    ensures 0 < p.consumed <= |s|
  {
    if |s| < 2 then Parsed(Ignored, 1)
    else if s[1] != 91 then Parsed(Ignored, 2)
    else if |s| < 3 then Parsed(Ignored, 2)
    else if 48 <= s[2] <= 57 then
      if |s| < 4 then Parsed(Ignored, 3)
      else if s[3] != 126 then Parsed(Ignored, 4)
      else if s[2] == 49 then Parsed(Home, 4)
      else if s[2] == 52 then Parsed(End, 4)
      else if s[2] == 51 then Parsed(Delete, 4)
      else Parsed(Ignored, 4)
    else
      var key :=
        if s[2] == 65 then Up
        else if s[2] == 66 then Down
        else if s[2] == 67 then Right
        else if s[2] == 68 then Left
        else if s[2] == 72 then Home
        else if s[2] == 70 then End
        else Ignored;
      Parsed(key, 3)
  }

  function SimpleKey(c: Byte): Key {
    if c == 13 || c == 10 then Enter
    else if c == 4 then CtrlD
    else if c == 3 then CtrlC
    else if c == 1 then Home
    else if c == 5 then End
    else if c == 11 then KillEnd
    else if c == 21 then KillAll
    else if c == 127 || c == 8 then Backspace
    else if c >= 32 then Insert(c)
    else Ignored
  }

  function ParseKey(s: Bytes): (p: Parsed)
    ensures s != [] ==> 0 < p.consumed <= |s| && p.key != Eof
    ensures s == [] ==> p == Parsed(Eof, 0)
  {
    if s == [] then Parsed(Eof, 0)
    else if s[0] == 27 then ParseEscape(s)
    else
      Parsed(SimpleKey(s[0]), 1)
  }

  /** Every way of spelling a key. */
  function Spellings(key: Key): seq<Bytes> {
    match key
    case Enter => [[13], [10]]
    case CtrlD => [[4]]
    case CtrlC => [[3]]
    case Home => [[1], [27, 91, 72], [27, 91, 49, 126]]
    case End => [[5], [27, 91, 70], [27, 91, 52, 126]]
    case KillEnd => [[11]]
    case KillAll => [[21]]
    case Backspace => [[127], [8]]
    case Delete => [[27, 91, 51, 126]]
    case Up => [[27, 91, 65]]
    case Down => [[27, 91, 66]]
    case Right => [[27, 91, 67]]
    case Left => [[27, 91, 68]]
    case Insert(c) => if c < 32 || c == 127 then [] else [[c]]
    case Ignored => []
    case Eof => []
  }

  /** A key that does something is read exactly where one of its spellings stands at the front. */
  lemma KeyIff(s: Bytes, key: Key, n: nat)
    requires key != Ignored && key != Eof
    ensures ParseKey(s) == Parsed(key, n) <==> n <= |s| && s[..n] in Spellings(key)
  {
    if ParseKey(s) == Parsed(key, n) {
      SpelledAs(s);
    }
    if n <= |s| && s[..n] in Spellings(key) {
      var i :| 0 <= i < |Spellings(key)| && Spellings(key)[i] == s[..n];
      SpellingReads(key, i, s[n..]);
      assert s == s[..n] + s[n..];
    }
  }

  lemma SpelledAs(s: Bytes)
    ensures var p := ParseKey(s); p.key != Ignored && p.key != Eof ==> s[..p.consumed] in Spellings(p.key)
  {
    var p := ParseKey(s);
    if p.key != Ignored && p.key != Eof {
      var t := s[..p.consumed];
      assert p.consumed == 1 ==> t == [s[0]];
      assert p.consumed == 3 ==> t == [s[0], s[1], s[2]];
      assert p.consumed == 4 ==> t == [s[0], s[1], s[2], s[3]];
    }
  }

  lemma SpellingReads(key: Key, i: nat, rest: Bytes)
    requires i < |Spellings(key)|
    ensures ParseKey(Spellings(key)[i] + rest) == Parsed(key, |Spellings(key)[i]|)
  {
  }

  /** An editing key on a line that holds at most `cap` bytes. */
  function Edit(z: Zipper, key: Key, cap: nat): Zipper {
    match key
    case Home => Zipper([], z.left + z.right)
    case End => Zipper(z.left + z.right, [])
    case KillEnd => Zipper(z.left, [])
    case KillAll => Zipper([], [])
    case Backspace => if z.left == [] then z else Zipper(z.left[..|z.left| - 1], z.right)
    case Delete => if z.right == [] then z else Zipper(z.left, z.right[1..])
    case Right => if z.right == [] then z else Zipper(z.left + [z.right[0]], z.right[1..])
    case Left => if z.left == [] then z else Zipper(z.left[..|z.left| - 1], [z.left[|z.left| - 1]] + z.right)
    case Insert(c) => if |z.left| + |z.right| < cap then Zipper(z.left + [c], z.right) else z
    case _ => z
  }

  /** One key that does not end the line. The first Up saves the live line; the Down that returns to
      it brings it back. */
  function Press(hist: seq<Bytes>, cap: nat, e: Editor, key: Key): Editor {
    match key
    case Up =>
      var saved := if e.pos == 0 then e.zip.Line() else e.saved;
      var entry := Recall(hist, e.pos + 1);
      if entry.None? then e.(saved := saved)
      else Editor(AtEnd(Take(entry.value, cap)), e.pos + 1, saved)
    case Down =>
      if e.pos == 0 then e
      else if e.pos == 1 then Editor(AtEnd(Take(e.saved, cap)), 0, e.saved)
      else
        var entry := Recall(hist, e.pos - 1);
        Editor(AtEnd(if entry.Some? then Take(entry.value, cap) else e.zip.Line()), e.pos - 1, e.saved)
    case _ => e.(zip := Edit(e.zip, key, cap))
  }

  /** The key ends the line, given what is on it. */
  predicate Ends(key: Key, line: Bytes) {
    key == Enter || key == CtrlC || key == Eof || (key == CtrlD && line == [])
  }

  datatype Outcome =
    | Done(result: Option<Bytes>, hist: seq<Bytes>, rest: Bytes)
    | Fault  // a slice out of bounds

  function Finish(hist: seq<Bytes>, key: Key, line: Bytes, rest: Bytes): Outcome
    requires Ends(key, line)
  {
    if key == Enter then Done(Some(line), Push(hist, line), rest)
    else if key == CtrlC then Done(Some([]), hist, rest)
    else Done(if line == [] then None else Some(line), hist, rest)
  }

  /** Reading one line with the ideal editor. */
  function Ideal(hist: seq<Bytes>, cap: nat, e: Editor, input: Bytes): Outcome
    decreases |input|
  {
    var p := ParseKey(input);
    var rest := input[p.consumed..];
    if Ends(p.key, e.zip.Line()) then Finish(hist, p.key, e.zip.Line(), rest)
    else Ideal(hist, cap, Press(hist, cap, e, p.key), rest)
  }

  /** The program copies back only 512 saved bytes, but as many as the live line had. */
  predicate Overruns(e: Editor, key: Key) {
    key == Down && e.pos == 1 && |e.saved| > HIST_MAX_LEN
  }

  /** Reading one line with the program: the same, but for the overrun. */
  function Actual(hist: seq<Bytes>, cap: nat, e: Editor, input: Bytes): Outcome
    decreases |input|
  {
    var p := ParseKey(input);
    var rest := input[p.consumed..];
    if Ends(p.key, e.zip.Line()) then Finish(hist, p.key, e.zip.Line(), rest)
    else if Overruns(e, p.key) then Fault
    else Actual(hist, cap, Press(hist, cap, e, p.key), rest)
  }

  // What every key keeps.

  ghost predicate Valid(hist: seq<Bytes>, cap: nat, e: Editor) {
    |e.zip.Line()| <= cap && |e.saved| <= cap && e.pos <= Min(|hist|, HIST_CAP)
  }

  lemma PressKeepsValid(hist: seq<Bytes>, cap: nat, e: Editor, key: Key)
    requires Valid(hist, cap, e)
    ensures Valid(hist, cap, Press(hist, cap, e, key))
  {
  }

  lemma {:induction false} SmallBufferNeverFaults(hist: seq<Bytes>, cap: nat, e: Editor, input: Bytes)
    requires cap <= 512 && Valid(hist, cap, e)
    ensures Actual(hist, cap, e, input) == Ideal(hist, cap, e, input)
    ensures Ideal(hist, cap, e, input).Done?
    decreases |input|
  {
    hide ParseKey, Press, Push;
    var p := ParseKey(input);
    if !Ends(p.key, e.zip.Line()) {
      PressKeepsValid(hist, cap, e, p.key);
      SmallBufferNeverFaults(hist, cap, Press(hist, cap, e, p.key), input[p.consumed..]);
    }
  }

  // A buffer over 512 bytes can be overrun.

  function Typed(n: nat): Bytes {
    seq(n, _ => 97)
  }

  const UP_DOWN: Bytes := [27, 91, 65, 27, 91, 66]

  lemma {:induction false} TypingFills(hist: seq<Bytes>, cap: nat, done: nat, left: nat, rest: Bytes)
    requires done + left <= cap
    ensures Actual(hist, cap, Editor(Zipper(Typed(done), []), 0, []), Typed(left) + rest) ==
            Actual(hist, cap, Editor(Zipper(Typed(done + left), []), 0, []), rest)
    decreases left
  {
    hide ParseKey, Press, Typed, Actual;
    if left == 0 {
      NothingTyped(rest);
    } else {
      TypesOne(hist, cap, done, left, rest);
      ActualStep(hist, cap, Editor(Zipper(Typed(done), []), 0, []), Typed(left) + rest);
      TypingFills(hist, cap, done + 1, left - 1, rest);
    }
  }

  lemma NothingTyped(rest: Bytes)
    ensures Typed(0) + rest == rest
  {
  }

  /** One more letter moves from the input to the line. */
  lemma TypesOne(hist: seq<Bytes>, cap: nat, done: nat, left: nat, rest: Bytes)
    requires left > 0 && done + left <= cap
    ensures var input, e := Typed(left) + rest, Editor(Zipper(Typed(done), []), 0, []);
            && ParseKey(input) == Parsed(Insert(97), 1) && input[1..] == Typed(left - 1) + rest
            && Press(hist, cap, e, Insert(97)) == Editor(Zipper(Typed(done + 1), []), 0, [])
  {
    var input := Typed(left) + rest;
    assert input[0] == 97;
    assert input[1..] == Typed(left - 1) + rest;
    assert Typed(done) + [97] == Typed(done + 1);
  }

  /** Up and then Down on the live line overruns the saved copy if and only if there is a history to
      go to and the line has more than 512 bytes; otherwise reading goes on where it was. */
  lemma UpDownFaults(hist: seq<Bytes>, cap: nat, e: Editor, rest: Bytes)
    requires e.pos == 0 && |e.zip.Line()| <= cap
    ensures Actual(hist, cap, e, UP_DOWN + rest) ==
            if hist == [] then Actual(hist, cap, e.(saved := e.zip.Line()), rest)
            else if |e.zip.Line()| > 512 then Fault
            else Actual(hist, cap, Editor(AtEnd(e.zip.Line()), 0, e.zip.Line()), rest)
  {
    hide Actual, Press, ParseKey;
    var input, down := UP_DOWN + rest, [27, 91, 66] + rest;
    assert ParseKey(input) == Parsed(Up, 3) by { SpellingReads(Up, 0, down); assert input == [27, 91, 65] + down; }
    assert ParseKey(down) == Parsed(Down, 3) by { SpellingReads(Down, 0, rest); }
    assert input[3..] == down && down[3..] == rest;
    var e' := Press(hist, cap, e, Up);
    ActualStep(hist, cap, e, input);
    ActualStep(hist, cap, e', down);
    UpThenDown(hist, cap, e);
  }

  lemma ActualStep(hist: seq<Bytes>, cap: nat, e: Editor, input: Bytes)
    requires !Ends(ParseKey(input).key, e.zip.Line())
    ensures var p := ParseKey(input);
            Actual(hist, cap, e, input) ==
            if Overruns(e, p.key) then Fault else Actual(hist, cap, Press(hist, cap, e, p.key), input[p.consumed..])
  {
    hide Press, ParseKey;
  }

  lemma UpThenDown(hist: seq<Bytes>, cap: nat, e: Editor)
    requires e.pos == 0 && |e.zip.Line()| <= cap
    ensures var up := Press(hist, cap, e, Up);
            && up.saved == e.zip.Line() && up.pos == (if hist == [] then 0 else 1)
            && Press(hist, cap, up, Down) ==
               if hist == [] then e.(saved := e.zip.Line()) else Editor(AtEnd(e.zip.Line()), 0, e.zip.Line())
  {
  }

  /** The program reads every line of every input like the ideal editor if and only if its buffer
      holds at most 512 bytes. */
  lemma FaithfulIff(cap: nat)
    ensures (forall hist, input :: Actual(hist, cap, EMPTY, input) == Ideal(hist, cap, EMPTY, input))
            <==> cap <= 512
  {
    hide Actual, Ideal;
    if cap <= HIST_MAX_LEN {
      forall hist, input ensures Actual(hist, cap, EMPTY, input) == Ideal(hist, cap, EMPTY, input) {
        SmallBufferNeverFaults(hist, cap, EMPTY, input);
      }
    } else {
      var n := HIST_MAX_LEN + 1;
      var hist, input: Bytes := [Typed(1)], Typed(n) + UP_DOWN;
      assert Typed(0) == [];
      TypingFills(hist, cap, 0, n, UP_DOWN);
      var e := Editor(Zipper(Typed(n), []), 0, []);
      assert e.zip.Line() == Typed(n);
      UpDownFaults(hist, cap, e, []);
      assert UP_DOWN + [] == UP_DOWN;
      IdealNeverFaults(hist, cap, EMPTY, input);
      assert Actual(hist, cap, EMPTY, input) != Ideal(hist, cap, EMPTY, input);
    }
  }

  lemma {:induction false} IdealNeverFaults(hist: seq<Bytes>, cap: nat, e: Editor, input: Bytes)
    ensures Ideal(hist, cap, e, input).Done?
    decreases |input|
  {
    hide ParseKey, Press, Push;
    var p := ParseKey(input);
    if !Ends(p.key, e.zip.Line()) {
      IdealNeverFaults(hist, cap, Press(hist, cap, e, p.key), input[p.consumed..]);
    }
  }

  // Navigation brings the live line back.

  function PressAll(hist: seq<Bytes>, cap: nat, e: Editor, keys: seq<Key>): Editor
    decreases keys
  {
    if keys == [] then e else PressAll(hist, cap, Press(hist, cap, e, keys[0]), keys[1..])
  }

  /** The keys stay inside the history until the last of them leaves it. */
  ghost predicate StaysInHistory(hist: seq<Bytes>, cap: nat, e: Editor, keys: seq<Key>) {
    forall i :: 0 < i < |keys| ==> PressAll(hist, cap, e, keys[..i]).pos > 0
  }

  lemma {:induction false} PressAllSnoc(hist: seq<Bytes>, cap: nat, e: Editor, keys: seq<Key>, key: Key)
    ensures PressAll(hist, cap, e, keys + [key]) == Press(hist, cap, PressAll(hist, cap, e, keys), key)
    decreases keys
  {
    hide Press;
    if keys == [] {
      assert [] + [key] == [key] && [key][1..] == [];
      assert PressAll(hist, cap, Press(hist, cap, e, key), []) == Press(hist, cap, e, key);
    } else {
      assert (keys + [key])[1..] == keys[1..] + [key];
      PressAllSnoc(hist, cap, Press(hist, cap, e, keys[0]), keys[1..], key);
    }
  }

  lemma PressKeepsSaved(hist: seq<Bytes>, cap: nat, e: Editor, key: Key)
    requires e.pos > 0
    ensures Press(hist, cap, e, key).saved == e.saved
    ensures Press(hist, cap, e, key).pos == 0 ==> Press(hist, cap, e, key).zip == AtEnd(Take(e.saved, cap))
  {
  }

  /** Away from the live line, whatever keys are pressed - edits of recalled entries included - the
      saved line stays what it was. */
  lemma {:induction false} SavedStays(hist: seq<Bytes>, cap: nat, e: Editor, keys: seq<Key>, i: nat)
    requires 0 < i < |keys| && StaysInHistory(hist, cap, e, keys)
    ensures PressAll(hist, cap, e, keys[..i]).saved == PressAll(hist, cap, e, keys[..1]).saved
    decreases i
  {
    hide Press;
    if i > 1 {
      SavedStays(hist, cap, e, keys, i - 1);
      assert keys[..i] == keys[..i - 1] + [keys[i - 1]];
      PressAllSnoc(hist, cap, e, keys[..i - 1], keys[i - 1]);
      PressKeepsSaved(hist, cap, PressAll(hist, cap, e, keys[..i - 1]), keys[i - 1]);
    }
  }

  /** Any run of keys that leaves the live line into the history and comes back restores exactly the
      line that was left, with the cursor at its end, whatever was done to recalled entries meanwhile. */
  lemma LiveLineRestored(hist: seq<Bytes>, cap: nat, e: Editor, keys: seq<Key>)
    requires Valid(hist, cap, e) && e.pos == 0 && |keys| >= 2
    requires StaysInHistory(hist, cap, e, keys) && PressAll(hist, cap, e, keys).pos == 0
    ensures PressAll(hist, cap, e, keys).zip == AtEnd(e.zip.Line())
  {
    hide PressAll, StaysInHistory, Valid;
    var n := |keys| - 1;
    FirstIsUp(hist, cap, e, keys);
    SavedStays(hist, cap, e, keys, n);
    assert keys == keys[..n] + [keys[n]];
    PressAllSnoc(hist, cap, e, keys[..n], keys[n]);
    Inside(hist, cap, e, keys, n);
    PressKeepsSaved(hist, cap, PressAll(hist, cap, e, keys[..n]), keys[n]);
    assert |e.zip.Line()| <= cap by { LineFits(hist, cap, e); }
  }

  lemma LineFits(hist: seq<Bytes>, cap: nat, e: Editor)
    requires Valid(hist, cap, e)
    ensures |e.zip.Line()| <= cap
  {
  }

  lemma Inside(hist: seq<Bytes>, cap: nat, e: Editor, keys: seq<Key>, i: nat)
    requires StaysInHistory(hist, cap, e, keys) && 0 < i < |keys|
    ensures PressAll(hist, cap, e, keys[..i]).pos > 0
  {
  }

  lemma FirstIsUp(hist: seq<Bytes>, cap: nat, e: Editor, keys: seq<Key>)
    requires e.pos == 0 && |keys| >= 2 && StaysInHistory(hist, cap, e, keys)
    ensures PressAll(hist, cap, e, keys[..1]).saved == e.zip.Line()
  {
    var one := keys[..1];
    assert one[1..] == [];
    assert PressAll(hist, cap, e, one) == Press(hist, cap, e, keys[0]);
    assert PressAll(hist, cap, e, keys[..1]).pos > 0;
  }

  // What the keys do, said of the line and the cursor.

  /** Backspace takes away the byte before the cursor, Delete the one at it. */
  lemma ErasingIs(z: Zipper, cap: nat)
    ensures var line, n, y := z.Line(), |z.left|, Edit(z, Backspace, cap);
            if n == 0 then y == z else y.Line() == line[..n - 1] + line[n..] && |y.left| == n - 1
    ensures var line, n, y := z.Line(), |z.left|, Edit(z, Delete, cap);
            if n == |line| then y == z else y.Line() == line[..n] + line[n + 1..] && |y.left| == n
  {
    AroundCursor(z);
  }

  lemma AroundCursor(z: Zipper)
    ensures var line, n := z.Line(), |z.left|;
            && line[..n] == z.left && line[n..] == z.right
            && (n > 0 ==> line[..n - 1] == z.left[..n - 1])
            && (n < |line| ==> line[n + 1..] == z.right[1..])
  {
  }

  /** A letter goes in at the cursor, if there is room. */
  lemma InsertIs(z: Zipper, c: Byte, cap: nat)
    ensures var line, n, y := z.Line(), |z.left|, Edit(z, Insert(c), cap);
            if |line| >= cap then y == z else y.Line() == line[..n] + [c] + line[n..] && |y.left| == n + 1
  {
    AroundCursor(z);
  }

  /** The cursor keys change no byte and move the cursor by one, or to an end. */
  lemma MovingIs(z: Zipper, cap: nat)
    ensures var y := Edit(z, Left, cap);
            y.Line() == z.Line() && |y.left| == if z.left == [] then 0 else |z.left| - 1
    ensures var y := Edit(z, Right, cap);
            y.Line() == z.Line() && |y.left| == if z.right == [] then |z.left| else |z.left| + 1
    ensures var y := Edit(z, Home, cap); y.Line() == z.Line() && |y.left| == 0
    ensures var y := Edit(z, End, cap); y.Line() == z.Line() && |y.left| == |z.Line()|
  {
    if z.left != [] {
      var n := |z.left| - 1;
      assert z.left[..n] + ([z.left[n]] + z.right) == z.left + z.right;
    }
    if z.right != [] { assert z.left + [z.right[0]] + z.right[1..] == z.left + z.right; }
  }

  /** The cut keys keep exactly what is before the cursor, or nothing. */
  lemma CuttingIs(z: Zipper, cap: nat)
    ensures var y := Edit(z, KillEnd, cap); y.Line() == z.Line()[..|z.left|] && |y.left| == |z.left|
    ensures Edit(z, KillAll, cap).Line() == []
  {
    AroundCursor(z);
  }

  /** Backspace undoes a letter; Left and Right undo each other inside the line; Left and then Delete is
      Backspace. */
  lemma KeysUndo(z: Zipper, c: Byte, cap: nat)
    ensures |z.Line()| < cap ==> Edit(Edit(z, Insert(c), cap), Backspace, cap) == z
    ensures z.left != [] ==> Edit(Edit(z, Left, cap), Right, cap) == z
    ensures z.right != [] ==> Edit(Edit(z, Right, cap), Left, cap) == z
    ensures z.left != [] ==> Edit(Edit(z, Left, cap), Delete, cap) == Edit(z, Backspace, cap)
  {
    if z.left != [] {
      var n := |z.left| - 1;
      assert z.left == z.left[..n] + [z.left[n]];
      assert ([z.left[n]] + z.right)[1..] == z.right;
    }
    if z.right != [] { assert z.right == [z.right[0]] + z.right[1..]; }
    assert (z.left + [c])[..|z.left|] == z.left;
  }

  // What is read, said of the input.

  /** Bytes that are typed as they are. */
  ghost predicate Printable(text: Bytes) {
    forall i :: 0 <= i < |text| ==> text[i] >= 32 && text[i] != 127
  }

  lemma IdealStep(hist: seq<Bytes>, cap: nat, e: Editor, input: Bytes)
    requires !Ends(ParseKey(input).key, e.zip.Line())
    ensures var p := ParseKey(input);
            Ideal(hist, cap, e, input) == Ideal(hist, cap, Press(hist, cap, e, p.key), input[p.consumed..])
  {
    hide Press, ParseKey;
  }

  lemma FirstByte(c: Byte, rest: Bytes)
    ensures c != 27 ==> ParseKey([c] + rest) == Parsed(SimpleKey(c), 1)
    ensures ([c] + rest)[1..] == rest
  {
  }

  /** Typing puts text at the cursor as long as there is room. */
  lemma {:induction false} Types(hist: seq<Bytes>, cap: nat, e: Editor, text: Bytes, rest: Bytes)
    requires Printable(text) && |e.zip.Line()| + |text| <= cap
    ensures Ideal(hist, cap, e, text + rest) ==
            Ideal(hist, cap, e.(zip := Zipper(e.zip.left + text, e.zip.right)), rest)
    decreases |text|
  {
    hide Ideal, ParseKey;
    if text == [] {
      assert text + rest == rest && e.zip.left + text == e.zip.left;
    } else {
      var c, more := text[0], text[1..];
      FirstByte(c, more + rest);
      assert text + rest == [c] + (more + rest);
      IdealStep(hist, cap, e, text + rest);
      var e' := e.(zip := Zipper(e.zip.left + [c], e.zip.right));
      assert Press(hist, cap, e, Insert(c)) == e';
      Types(hist, cap, e', more, rest);
      assert e.zip.left + [c] + more == e.zip.left + text;
    }
  }

  /** Enter gives back the line and keeps it. */
  lemma EnterEnds(hist: seq<Bytes>, cap: nat, e: Editor, rest: Bytes)
    ensures Ideal(hist, cap, e, [13] + rest) == Done(Some(e.zip.Line()), Push(hist, e.zip.Line()), rest)
  {
    hide Push, Press;
    FirstByte(13, rest);
  }

  /** A line that is typed and ended is read as it was typed; interrupted, it is empty; at the end of
      the input, it is what there is of it; and end-of-file on an empty line ends the input. */
  lemma ReadsWhatIsTyped(hist: seq<Bytes>, cap: nat, text: Bytes, rest: Bytes)
    requires Printable(text) && |text| <= cap
    ensures Ideal(hist, cap, EMPTY, text + [13] + rest) == Done(Some(text), Push(hist, text), rest)
    ensures Ideal(hist, cap, EMPTY, text + [3] + rest) == Done(Some([]), hist, rest)
    ensures Ideal(hist, cap, EMPTY, text) == Done(if text == [] then None else Some(text), hist, [])
    ensures Ideal(hist, cap, EMPTY, [4] + rest) == Done(None, hist, rest)
  {
    hide Ideal, Push;
    var e := EMPTY.(zip := Zipper([] + text, []));
    assert e.zip.Line() == text && [] + text == text;
    assert text + [13] + rest == text + ([13] + rest) && text + [3] + rest == text + ([3] + rest) && text + [] == text;
    Types(hist, cap, EMPTY, text, [13] + rest);
    EnterEnds(hist, cap, e, rest);
    Types(hist, cap, EMPTY, text, [3] + rest);
    Types(hist, cap, EMPTY, text, []);
    OtherEnds(hist, cap, e, rest);
    OtherEnds(hist, cap, EMPTY, rest);
  }

  lemma OtherEnds(hist: seq<Bytes>, cap: nat, e: Editor, rest: Bytes)
    ensures Ideal(hist, cap, e, [3] + rest) == Done(Some([]), hist, rest)
    ensures Ideal(hist, cap, e, []) == Done(if e.zip.Line() == [] then None else Some(e.zip.Line()), hist, [])
    ensures e.zip.Line() == [] ==> Ideal(hist, cap, e, [4] + rest) == Done(None, hist, rest)
  {
    hide Press, Push, ParseEscape;
    FirstByte(3, rest);
    FirstByte(4, rest);
  }

  /** A byte that is typed and erased leaves no trace. */
  lemma ErasedLeavesNoTrace(hist: seq<Bytes>, cap: nat, text: Bytes, c: Byte, rest: Bytes)
    requires Printable(text) && Printable([c]) && |text| < cap
    ensures Ideal(hist, cap, EMPTY, text + [c] + [127] + [13] + rest) == Done(Some(text), Push(hist, text), rest)
  {
    hide Ideal, Push, ParseKey;
    var typed, tail := text + [c], [127] + ([13] + rest);
    assert Printable(typed) by { assert [c][0] == c; }
    assert text + [c] + [127] + [13] + rest == typed + tail;
    Types(hist, cap, EMPTY, typed, tail);
    var e := EMPTY.(zip := Zipper([] + typed, []));
    FirstByte(127, [13] + rest);
    IdealStep(hist, cap, e, tail);
    var back := Press(hist, cap, e, Backspace);
    assert back.zip == Zipper(text, []) by { assert ([] + typed)[..|text|] == text; }
    EnterEnds(hist, cap, back, rest);
    assert back.zip.Line() == text;
  }

  /** End-of-file inside a line, and bytes without a meaning, change nothing. */
  lemma StrayKeysChangeNothing(hist: seq<Bytes>, cap: nat, e: Editor, c: Byte, rest: Bytes)
    requires c == 4 || SimpleKey(c) == Ignored
    requires c != 27 && e.zip.Line() != []
    ensures Ideal(hist, cap, e, [c] + rest) == Ideal(hist, cap, e, rest)
  {
    hide Ideal, ParseKey;
    FirstByte(c, rest);
    IdealStep(hist, cap, e, [c] + rest);
  }

  // The history, said of what was entered.

  /** Empty and repeated lines are not kept; any other becomes the newest entry, cut to 512 bytes, and
      every earlier entry grows older by one. */
  lemma PushIs(hist: seq<Bytes>, line: Bytes)
    ensures line == [] || (hist != [] && hist[|hist| - 1] == line) ==> Push(hist, line) == hist
    ensures line != [] && (hist == [] || hist[|hist| - 1] != line) ==>
              && Recall(Push(hist, line), 1) == Some(if |line| <= 512 then line else line[..512])
              && forall age :: 1 <= age < 50 ==> Recall(Push(hist, line), age + 1) == Recall(hist, age)
  {
    if |line| <= 512 { assert Take(line, HIST_MAX_LEN) == line; }
  }

  /** Fifty entries can be recalled, no fewer if there are as many, and no more. */
  lemma RecallIff(hist: seq<Bytes>, age: nat)
    ensures Recall(hist, age).Some? <==> 1 <= age <= |hist| && age <= 50
  {
  }

  function Ups(k: nat): seq<Key> {
    seq(k, _ => Up)
  }

  /** Pressing Up k times shows the entry of age k, with the live line saved. */
  lemma {:induction false} UpsRecall(hist: seq<Bytes>, cap: nat, e: Editor, k: nat)
    requires e.pos == 0 && 1 <= k <= |hist| && k <= 50
    ensures var entry := hist[|hist| - k];
            PressAll(hist, cap, e, Ups(k)) ==
            Editor(AtEnd(if |entry| <= cap then entry else entry[..cap]), k, e.zip.Line())
  {
    hide PressAll;
    assert Ups(k) == Ups(k - 1) + [Up];
    PressAllSnoc(hist, cap, e, Ups(k - 1), Up);
    if k == 1 {
      assert Ups(0) == [];
      NoKeys(hist, cap, e);
    } else {
      UpsRecall(hist, cap, e, k - 1);
    }
  }

  /** Down shows the next newer entry, from the newest the live line, and on the live line nothing new; Up
      on the oldest entry that can be recalled changes nothing. */
  lemma DownIs(hist: seq<Bytes>, cap: nat, e: Editor)
    requires e.pos <= |hist| && e.pos <= 50
    ensures e.pos >= 2 ==>
              var entry := hist[|hist| - (e.pos - 1)];
              Press(hist, cap, e, Down) ==
              Editor(AtEnd(if |entry| <= cap then entry else entry[..cap]), e.pos - 1, e.saved)
    ensures e.pos == 1 && |e.saved| <= cap ==> Press(hist, cap, e, Down) == Editor(AtEnd(e.saved), 0, e.saved)
    ensures e.pos == 0 ==> Press(hist, cap, e, Down) == e
    ensures e.pos > 0 && (e.pos == |hist| || e.pos == 50) ==> Press(hist, cap, e, Up) == e
  {
    if e.pos == 1 && |e.saved| <= cap { assert Take(e.saved, cap) == e.saved; }
  }

  lemma NoKeys(hist: seq<Bytes>, cap: nat, e: Editor)
    ensures PressAll(hist, cap, e, []) == e
  {
  }

  /** A line that was entered comes back with Up and Enter. */
  lemma EnteredComesBack(hist: seq<Bytes>, cap: nat, text: Bytes, rest: Bytes)
    requires text != [] && |text| <= 512 && |text| <= cap
    ensures Ideal(Push(hist, text), cap, EMPTY, [27, 91, 65] + [13] + rest) == Done(Some(text), Push(hist, text), rest)
  {
    hide Ideal, ParseKey, Press, Push;
    var kept := Push(hist, text);
    NewestIs(hist, text);
    var input := [27, 91, 65] + ([13] + rest);
    assert [27, 91, 65] + [13] + rest == input && input[3..] == [13] + rest;
    SpellingReads(Up, 0, [13] + rest);
    IdealStep(kept, cap, EMPTY, input);
    UpShowsNewest(kept, cap, text);
    EnterEnds(kept, cap, Press(kept, cap, EMPTY, Up), rest);
    PushIs(kept, text);
  }

  lemma NewestIs(hist: seq<Bytes>, text: Bytes)
    requires text != [] && |text| <= 512
    ensures var kept := Push(hist, text); kept != [] && kept[|kept| - 1] == text
  {
    assert Take(text, HIST_MAX_LEN) == text;
  }

  lemma UpShowsNewest(hist: seq<Bytes>, cap: nat, text: Bytes)
    requires hist != [] && hist[|hist| - 1] == text && |text| <= cap
    ensures Press(hist, cap, EMPTY, Up).zip.Line() == text
  {
    assert Take(text, cap) == text;
  }
}
