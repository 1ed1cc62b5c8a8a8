/** The line editor itself: an edit buffer changed in place, a 50-slot ring of history entries, and
    the byte loop of `readLine`, proved against LineSpec. */
module LineEditor {
  import opened Bytes
  import opened LineSpec

  lemma SlotsDiffer(a: nat, b: nat)
    requires a < b < a + HIST_CAP
    ensures a % HIST_CAP != b % HIST_CAP
  {
    assert b % HIST_CAP == (a % HIST_CAP + (b - a)) % HIST_CAP;
  }

  /** The module's history arrays. */
  class History {
    const buf: array2<Byte>
    const lens: array<nat>
    var count: nat
    ghost var entries: seq<Bytes>  // every line ever kept

    ghost predicate SlotHolds(slot: nat, entry: Bytes)
      requires buf.Length0 == HIST_CAP && buf.Length1 == HIST_MAX_LEN && lens.Length == HIST_CAP && slot < HIST_CAP
      reads this, buf, lens
    {
      && lens[slot] == |entry| <= HIST_MAX_LEN
      && forall i :: 0 <= i < |entry| ==> buf[slot, i] == entry[i]
    }

    /** The ring holds the last 50 entries of the list, each in the slot of its number. */
    ghost predicate Valid()
      reads this, buf, lens
    {
      && buf.Length0 == HIST_CAP && buf.Length1 == HIST_MAX_LEN && lens.Length == HIST_CAP
      && count == |entries|
      && forall k :: 0 <= k < count && count - HIST_CAP <= k ==> SlotHolds(k % HIST_CAP, entries[k])
    }

    constructor ()
      ensures Valid() && entries == []
      ensures fresh(buf) && fresh(lens)
    {
      buf := new Byte[HIST_CAP, HIST_MAX_LEN];
      lens := new nat[HIST_CAP](_ => 0);
      count := 0;
      entries := [];
    }

    /** The contents of a slot. */
    method Slot(slot: nat) returns (entry: Bytes)
      requires Valid() && slot < HIST_CAP && lens[slot] <= HIST_MAX_LEN
      ensures SlotHolds(slot, entry)
    {
      entry := seq(lens[slot], i requires 0 <= i < lens[slot] <= HIST_MAX_LEN reads this, buf, lens => buf[slot, i]);
    }

    method Get(age: nat) returns (r: Option<Bytes>)
      requires Valid()
      ensures r == Recall(entries, age)
    {
      if age == 0 || age > (if count < HIST_CAP then count else HIST_CAP) { return None; }
      var slot := (count - age) % HIST_CAP;
      ghost var k := count - age;
      assert SlotHolds(k % HIST_CAP, entries[k]);
      var entry := Slot(slot);
      assert entry == entries[k];
      return Some(entry);
    }

    method Push(line: Bytes)
      requires Valid()
      modifies this, buf, lens
      ensures Valid() && entries == LineSpec.Push(old(entries), line)
    {
      if line == [] { return; }
      if count > 0 {
        ghost var k := count - 1;
        assert SlotHolds(k % HIST_CAP, entries[k]);
        var last := Slot((count - 1) % HIST_CAP);
        assert last == entries[k];
        if last == line { return; }
      }
      var slot := count % HIST_CAP;
      var n := if |line| < HIST_MAX_LEN then |line| else HIST_MAX_LEN;
      forall i | 0 <= i < n { buf[slot, i] := line[i]; }
      lens[slot] := n;
      ghost var kept := Take(line, HIST_MAX_LEN);
      assert SlotHolds(slot, kept);
      forall k | 0 <= k < count && count + 1 - HIST_CAP <= k ensures SlotHolds(k % HIST_CAP, entries[k]) {
        SlotsDiffer(k, count);
        assert old(SlotHolds(k % HIST_CAP, entries[k]));
      }
      entries := entries + [kept];
      count := count + 1;
    }
  }

  /** The caller's buffer with the length of the line in it and the cursor. */
  class LineBuffer {
    const buf: array<Byte>
    var len: nat
    var cursor: nat

    ghost predicate Valid()
      reads this
    {
      cursor <= len <= buf.Length
    }

    ghost function View(): Zipper
      requires Valid()
      reads this, buf
    {
      Zipper(buf[..cursor], buf[cursor..len])
    }

    constructor (buf: array<Byte>)
      ensures Valid() && this.buf == buf && View() == Zipper([], [])
    {
      this.buf := buf;
      len, cursor := 0, 0;
    }

    /** Replace the line, cut to the buffer, with the cursor at its end. */
    method Load(line: Bytes)
      requires Valid()
      modifies this, buf
      ensures Valid() && View() == AtEnd(Take(line, buf.Length))
    {
      var n := if |line| < buf.Length then |line| else buf.Length;
      forall i | 0 <= i < n { buf[i] := line[i]; }
      len := n;
      cursor := len;
      assert buf[..n] == Take(line, buf.Length);
    }

    /** Move everything behind position `at` one place to the left. */
    method ShiftLeft(at: nat)
      requires Valid() && at < len
      modifies buf
      ensures buf[..at] == old(buf[..at]) && buf[at..len - 1] == old(buf[at + 1..len])
    {
      ghost var was := buf[at + 1..len];
      forall i | at <= i < len - 1 { buf[i] := buf[i + 1]; }
      ghost var part := buf[at..len - 1];
      forall k | 0 <= k < |part| ensures part[k] == was[k] {
        assert buf[at + k] == old(buf[at + k + 1]);
      }
    }

    /** Move everything from position `at` on one place to the right. */
    method ShiftRight(at: nat)
      requires Valid() && at <= len < buf.Length
      modifies buf
      ensures buf[..at] == old(buf[..at]) && buf[at + 1..len + 1] == old(buf[at..len])
    {
      ghost var was := buf[at..len];
      forall i | at < i <= len { buf[i] := buf[i - 1]; }
      ghost var part := buf[at + 1..len + 1];
      forall k | 0 <= k < |part| ensures part[k] == was[k] {
        assert buf[at + 1 + k] == old(buf[at + k]);
      }
    }

    method Backspace()
      requires Valid()
      modifies this, buf
      ensures Valid() && View() == Edit(old(View()), Key.Backspace, buf.Length)
      ensures old(cursor) > 0 ==> cursor == old(cursor) - 1 && len == old(len) - 1
                                  && buf[..len] == old(buf[..cursor - 1]) + old(buf[cursor..len])
    {
      if cursor > 0 {
        ghost var left := buf[..cursor];
        ShiftLeft(cursor - 1);
        cursor := cursor - 1;
        len := len - 1;
        assert buf[..cursor] == left[..cursor];
        assert buf[..len] == buf[..cursor] + buf[cursor..len];
      }
    }

    method Delete()
      requires Valid()
      modifies this, buf
      ensures Valid() && View() == Edit(old(View()), Key.Delete, buf.Length)
      ensures old(cursor) < old(len) ==> cursor == old(cursor) && len == old(len) - 1
                                         && buf[..len] == old(buf[..cursor]) + old(buf[cursor + 1..len])
    {
      if cursor < len {
        ghost var right := buf[cursor..len];
        assert right[1..] == buf[cursor + 1..len];
        ShiftLeft(cursor);
        len := len - 1;
        assert buf[..len] == buf[..cursor] + buf[cursor..len];
      }
    }

    method InsertByte(c: Byte)
      requires Valid()
      modifies this, buf
      ensures Valid() && View() == Edit(old(View()), Insert(c), buf.Length)
      ensures old(len) < buf.Length ==> cursor == old(cursor) + 1 && len == old(len) + 1
                                        && buf[..len] == old(buf[..cursor]) + [c] + old(buf[cursor..len])
    {
      if len < buf.Length {
        ghost var z := View();
        ShiftRight(cursor);
        buf[cursor] := c;
        cursor := cursor + 1;
        len := len + 1;
        assert buf[..cursor] == buf[..cursor - 1] + [c];
        assert View() == Zipper(z.left + [c], z.right);
        assert buf[..len] == buf[..cursor] + buf[cursor..len];
      }
    }

    /** Keys that only move the cursor or cut the line short. */
    method Move(key: Key)
      requires Valid() && !key.Backspace? && !key.Delete? && !key.Insert?
      modifies this
      ensures Valid() && View() == Edit(old(View()), key, buf.Length)
    {
      ghost var z := View();
      if key == Home {
        cursor := 0;
        assert View() == Zipper([], z.left + z.right);
      } else if key == End {
        cursor := len;
        assert View() == Zipper(z.left + z.right, []);
      } else if key == KillEnd {
        len := cursor;
      } else if key == KillAll {
        len, cursor := 0, 0;
      } else if key == Right {
        if cursor < len { GoRight(); }
      } else if key == Left {
        if cursor > 0 { GoLeft(); }
      }
    }

    method GoRight()
      requires Valid() && cursor < len
      modifies this`cursor
      ensures Valid()
      ensures var z := old(View()); View() == Zipper(z.left + [z.right[0]], z.right[1..])
    {
      cursor := cursor + 1;
    }

    method GoLeft()
      requires Valid() && cursor > 0
      modifies this`cursor
      ensures Valid()
      ensures var z := old(View()); View() == Zipper(z.left[..|z.left| - 1], [z.left[|z.left| - 1]] + z.right)
    {
      cursor := cursor - 1;
    }

    /** Any editing key. */
    method Apply(key: Key)
      requires Valid()
      modifies this, buf
      ensures Valid() && View() == Edit(old(View()), key, buf.Length)
    {
      hide Edit;
      if key == Key.Backspace {
        Backspace();
      } else if key == Key.Delete {
        Delete();
      } else if key.Insert? {
        InsertByte(key.c);
      } else {
        Move(key);
      }
    }
  }

  /** Read one key, byte by byte: exactly the key at the front of the rest of the input. */
  method ReadKey(input: Bytes, at: nat) returns (key: Key, next: nat)
    requires at <= |input|
    ensures at <= next <= |input|
    ensures ParseKey(input[at..]) == Parsed(key, next - at)
  {
    next := at;
    if next == |input| { return Eof, next; }
    var c := input[next];
    next := next + 1;
    if c != 27 {
      return SimpleKey(c), next;
    }
    if next == |input| { return Ignored, next; }
    var first := input[next];
    next := next + 1;
    if first != 91 { return Ignored, next; }
    if next == |input| { return Ignored, next; }
    var second := input[next];
    next := next + 1;
    if 48 <= second <= 57 {
      if next == |input| { return Ignored, next; }
      var third := input[next];
      next := next + 1;
      if third != 126 { return Ignored, next; }
      return if second == 49 then Home else if second == 52 then End
             else if second == 51 then Delete else Ignored, next;
    }
    return if second == 65 then Up else if second == 66 then Down else if second == 67 then Right
           else if second == 68 then Left else if second == 72 then Home
           else if second == 70 then End else Ignored, next;
  }

  datatype Status = Line(text: Bytes) | Null | Faulted

  /** `readLine`'s local state: the line, the place in the history, the saved live line. */
  class Session {
    const hist: History
    const line: LineBuffer
    const saved: array<Byte>
    var savedLen: nat
    var histPos: nat
    ghost var live: Bytes  // the line that was saved, whole

    ghost predicate Valid()
      reads this, hist, hist.buf, hist.lens, line, line.buf, saved
    {
      && hist.Valid() && line.Valid()
      && saved.Length == HIST_MAX_LEN && saved != line.buf
      && savedLen == |live|
      && forall i :: 0 <= i < Min(|live|, HIST_MAX_LEN) ==> saved[i] == live[i]
    }

    ghost function View(): Editor
      requires Valid()
      reads this, hist, hist.buf, hist.lens, line, line.buf, saved
    {
      Editor(line.View(), histPos, live)
    }

    constructor (hist: History, buf: array<Byte>)
      requires hist.Valid()
      ensures Valid() && this.hist == hist && line.buf == buf && fresh(line) && fresh(saved)
      ensures View() == EMPTY
    {
      this.hist := hist;
      line := new LineBuffer(buf);
      saved := new Byte[HIST_MAX_LEN](_ => 0);
      savedLen, histPos, live := 0, 0, [];
    }

    method SaveLive()
      requires Valid()
      modifies this`savedLen, this`live, saved
      ensures Valid() && View() == old(View()).(saved := old(View()).zip.Line())
    {
      var n := if line.len < HIST_MAX_LEN then line.len else HIST_MAX_LEN;
      forall i | 0 <= i < n { saved[i] := line.buf[i]; }
      savedLen := line.len;
      live := line.View().Line();
      assert live == line.buf[..line.len];
      assert line.View() == old(line.View());
    }

    method PressUp()
      requires Valid()
      modifies this, line, line.buf, saved
      ensures Valid() && View() == Press(hist.entries, line.buf.Length, old(View()), Up)
    {
      if histPos == 0 { SaveLive(); }
      var entry := hist.Get(histPos + 1);
      if entry.Some? {
        histPos := histPos + 1;
        line.Load(entry.value);
      }
    }

    /** Down; it cannot be carried out when it would copy back more than was saved. */
    method PressDown() returns (ok: bool)
      requires Valid()
      modifies this, line, line.buf
      ensures ok <==> !(old(histPos) == 1 && |old(live)| > HIST_MAX_LEN && line.buf.Length > HIST_MAX_LEN)
      ensures Valid()
      ensures ok ==> View() == Press(hist.entries, line.buf.Length, old(View()), Down)
    {
      hide Recall, hist.SlotHolds;
      if histPos == 0 { return true; }
      histPos := histPos - 1;
      if histPos == 0 {
        var n := if savedLen < line.buf.Length then savedLen else line.buf.Length;
        if n > saved.Length { return false; }
        assert saved[..n] == Take(live, line.buf.Length);
        line.Load(saved[..n]);
      } else {
        var entry := hist.Get(histPos);
        if entry.Some? {
          line.Load(entry.value);
        } else {
          line.Move(End);
        }
      }
      return true;
    }

    /** A key that neither ends the line nor moves through the history. */
    method PressEdit(key: Key)
      requires Valid() && !key.Up? && !key.Down?
      modifies line, line.buf
      ensures Valid() && View() == Press(hist.entries, line.buf.Length, old(View()), key)
    {
      hide hist.SlotHolds, Edit;
      line.Apply(key);
    }

    /** One key: the ideal editor's step, unless the program overruns its saved line. */
    method PressKey(key: Key) returns (ok: bool)
      requires Valid() && |live| <= line.buf.Length
      modifies this, line, line.buf, saved
      ensures Valid()
      ensures ok <==> !Overruns(old(View()), key)
      ensures ok ==> |live| <= line.buf.Length && View() == Press(hist.entries, line.buf.Length, old(View()), key)
    {
      hide Press, hist.SlotHolds;
      ghost var before := View();
      assert |before.zip.Line()| <= line.buf.Length;
      ok := true;
      if key == Up {
        PressUp();
      } else if key == Down {
        ok := PressDown();
      } else {
        PressEdit(key);
      }
      if ok { PressedFits(hist.entries, line.buf.Length, before, key); }
    }

    static lemma PressedFits(hist: seq<Bytes>, cap: nat, e: Editor, key: Key)
      requires |e.saved| <= cap && |e.zip.Line()| <= cap
      ensures |Press(hist, cap, e, key).saved| <= cap
    {
    }
  }

  lemma ActualAt(hist: seq<Bytes>, cap: nat, e: Editor, input: Bytes, at: nat, key: Key, next: nat)
    requires at <= next <= |input| && ParseKey(input[at..]) == Parsed(key, next - at)
    ensures Actual(hist, cap, e, input[at..]) ==
            if Ends(key, e.zip.Line()) then Finish(hist, key, e.zip.Line(), input[next..])
            else if Overruns(e, key) then Fault
            else Actual(hist, cap, Press(hist, cap, e, key), input[next..])
  {
    hide ParseKey, Press;
    assert input[at..][next - at..] == input[next..];
  }

  /** `readLine` on the bytes of standard input: the program's outcome, and the history it leaves. */
  method ReadLine(input: Bytes, buf: array<Byte>, hist: History) returns (status: Status, rest: Bytes)
    requires hist.Valid()
    modifies buf, hist, hist.buf, hist.lens
    ensures hist.Valid()
    ensures match Actual(old(hist.entries), buf.Length, EMPTY, input)
            case Fault => status == Faulted
            case Done(result, entries, left) =>
              && status == (if result.Some? then Line(result.value) else Null)
              && hist.entries == entries && rest == left
  {
    hide Press, ParseKey, LineSpec.Push, Actual, Overruns;
    var s := new Session(hist, buf);
    ghost var entries, want := hist.entries, Actual(hist.entries, buf.Length, EMPTY, input);
    var at := 0;
    assert input[at..] == input;
    while true
      invariant at <= |input| && s.hist == hist && s.line.buf == buf && fresh(s) && fresh(s.line) && fresh(s.saved)
      invariant s.Valid() && |s.live| <= buf.Length && hist.entries == entries && hist.Valid()
      invariant Actual(entries, buf.Length, s.View(), input[at..]) == want
      decreases |input| - at
    {
      ghost var e := s.View();
      var key, next := ReadKey(input, at);
      ActualAt(entries, buf.Length, e, input, at, key, next);
      var text := s.line.buf[..s.line.len];
      assert text == e.zip.Line();
      if key == Enter {
        hist.Push(text);
        return Line(text), input[next..];
      }
      if key == CtrlC { return Line([]), input[next..]; }
      if key == Eof || (key == CtrlD && text == []) {
        return if text == [] then Null else Line(text), input[next..];
      }
      var ok := s.PressKey(key);
      if !ok { return Faulted, []; }
      at := next;
    }
  }
}
