/** The line editor of dnlogin: the input buffer it keeps and the line it draws. */
module Tty {
  import opened Bits
  import opened Wrappers
  import opened TtyEscape

  const BUFFER := 1024
  const BLANK: byte := 32

  // ---- The terminal line ----

  /** One line of a terminal, blank beyond its cells. */
  datatype Screen = Screen(cells: seq<byte>, cursor: nat) {
    function At(i: nat): byte {
      if i < |cells| then cells[i] else BLANK
    }

    /** A printable character. */
    function Put(c: byte): Screen {
      if cursor < |cells| then Screen(cells[cursor := c], cursor + 1)
      else Screen(cells + seq(cursor - |cells|, _ => BLANK) + [c], cursor + 1)
    }

    function PutAll(text: seq<byte>): Screen
      decreases |text|
    {
      if text == [] then this else Put(text[0]).PutAll(text[1..])
    }

    /** Carriage return and a forward movement; a count of zero moves by one. */
    function MoveTo(column: nat): Screen {
      Screen(cells, if column == 0 then 1 else column)
    }

    function Forward(): Screen { Screen(cells, cursor + 1) }

    function Backward(): Screen { Screen(cells, if cursor == 0 then 0 else cursor - 1) }

    function EraseEol(): Screen {
      Screen(if cursor < |cells| then cells[..cursor] else cells, cursor)
    }
  }

  lemma PutAt(s: Screen, c: byte, i: nat)
    ensures s.Put(c).At(i) == if i == s.cursor then c else s.At(i)
    ensures s.Put(c).cursor == s.cursor + 1
  {
  }

  lemma {:induction false} PutAllAt(s: Screen, text: seq<byte>, i: nat)
    ensures s.PutAll(text).At(i) == if s.cursor <= i < s.cursor + |text| then text[i - s.cursor] else s.At(i)
    ensures s.PutAll(text).cursor == s.cursor + |text|
    decreases |text|
  {
    if text == [] {
    } else {
      PutAt(s, text[0], i);
      PutAllAt(s.Put(text[0]), text[1..], i);
    }
  }

  /** The line shows the prompt and the text behind it, and the cursor stands at
      position pos of the text. */
  ghost predicate Shows(s: Screen, prompt: seq<byte>, text: seq<byte>, pos: nat) {
    && s.cursor == |prompt| + pos
    && forall i: nat :: s.At(i) == Cell(prompt, text, i)
  }

  function Cell(prompt: seq<byte>, text: seq<byte>, i: nat): byte {
    if i < |prompt| then prompt[i] else if i - |prompt| < |text| then text[i - |prompt|] else BLANK
  }

  /** What redrawing the line does. */
  function Redraw(s: Screen, start: nat, text: seq<byte>, pos: nat): Screen {
    s.MoveTo(start).EraseEol().PutAll(text).MoveTo(start + pos)
  }

  lemma RedrawShows(s: Screen, prompt: seq<byte>, text: seq<byte>, pos: nat)
    requires prompt != [] && forall i: nat :: i < |prompt| ==> s.At(i) == prompt[i]
    ensures Shows(Redraw(s, |prompt|, text, pos), prompt, text, pos)
  {
    var e := s.MoveTo(|prompt|).EraseEol();
    forall i: nat ensures Redraw(s, |prompt|, text, pos).At(i) == Cell(prompt, text, i) {
      PutAllAt(e, text, i);
      if i < |prompt| { assert s.At(i) == prompt[i]; }
    }
  }

  // ---- The line as two halves ----

  /** The text before and after the cursor, and whether characters are inserted or
      overwrite. */
  datatype Line = Line(left: seq<byte>, right: seq<byte>, insert: bool) {
    function Text(): seq<byte> { left + right }
  }

  datatype Key = Char(c: byte) | Delete | Kill | Home | End | Toggle | Right | Left

  function Pressed(l: Line, key: Key): Line {
    match key
    case Char(c) => l.(left := l.left + [c], right := if l.insert || l.right == [] then l.right else l.right[1..])
    case Delete => if l.left == [] then l else l.(left := l.left[..|l.left| - 1])
    case Kill => l.(left := [], right := [])
    case Home => l.(left := [], right := l.Text())
    case End => l.(left := l.Text(), right := [])
    case Toggle => l.(insert := !l.insert)
    case Right => if l.right == [] then l else l.(left := l.left + [l.right[0]], right := l.right[1..])
    case Left =>
      if l.left == [] then l
      else l.(left := l.left[..|l.left| - 1], right := [l.left[|l.left| - 1]] + l.right)
  }

  /** Typing a character and deleting it leaves the line as it was exactly when the
      character did not overwrite another. */
  lemma DeleteUndoes(l: Line, c: byte)
    ensures Pressed(Pressed(l, Char(c)), Delete) == l <==> l.insert || l.right == []
  {
    var p := Pressed(l, Char(c));
    assert p.left[..|p.left| - 1] == l.left;
  }

  // ---- Bytes from the keyboard ----

  const AHEAD := 128
  const CTRL_C: byte := 3
  const LF: byte := 10
  const CR: byte := 13
  const CTRL_Y: byte := 25
  const DEL: byte := 127

  /** What the keyboard sends. */
  type ascii = x: int | 0 <= x < 128

  /** What the host has set for a read: the terminator mask, whether escape sequences
      are taken, the length at which the line is sent, and folding to capitals. */
  datatype Setup = Setup(mask: seq<byte>, escapes: bool, maxReadLen: nat, upperCase: bool) {
    predicate Valid() { |mask| == 16 && 0 < maxReadLen <= BUFFER }
  }

  datatype Reason = Terminated | BufferFull | ValidEscape

  const ESCAPES := 132

  /** What is sent to the host: the bytes, where the terminator is, and why. */
  datatype Sent = Sent(data: seq<byte>, term: int, reason: Reason) {
    /** The text without the terminator or the escape sequence behind it. */
    function Text(): seq<byte> {
      if reason != BufferFull && 0 <= term <= |data| then data[..term] else data
    }
  }

  /** A read in progress: the line, the escape sequence that has come so far, what was
      sent, the bytes kept for the next read, and whether output was ever suppressed or an
      arrow echoed incompletely. */
  datatype Typing = Typing(line: Line, esc: Escape, sent: Option<Sent>, ahead: seq<ascii>, quiet: bool)

  /** Line feed counts as return, and control-C as control-Y. */
  function Swapped(c: ascii): ascii {
    if c == LF then CR else if c == CTRL_C then CTRL_Y else c
  }

  /** Letters in capitals when the host asked for that. */
  function Folded(upperCase: bool, c: byte): byte {
    if upperCase && 97 <= c <= 122 then c - 32 else c
  }

  /** What a byte does that is neither a terminator nor part of an escape sequence. */
  datatype Action = Press(key: Key) | Repaint | Suppress | Finish | Ignore

  function Meaning(upperCase: bool, c: byte): Action {
    if c == 1 then Press(Toggle)
    else if c == 5 then Press(End)
    else if c == 8 then Press(Home)
    else if c == CR then Finish
    else if c == 15 then Suppress
    else if c == 21 || c == 24 then Press(Kill)
    else if c == 23 then Repaint
    else if c == DEL then Press(Delete)
    else if c < 32 then Ignore
    else Press(Char(Folded(upperCase, c)))
  }

  /** A byte behind the start of an escape sequence. When it is the last one, an arrow moves
      the cursor, and any other sequence goes out behind the line. */
  function Escaped(t: Typing, c: byte): Typing {
    var e := Longer(t.esc, c);
    if Rule(t.esc.state, c).0 then t.(esc := e)
    else
      var s := t.(esc := e.(bytes := []));
      if AnyArrow(e)
      then s.(line := Pressed(t.line, if IsArrow(e, RIGHT_ARROW) then Right else Left),
              quiet := t.quiet || |e.bytes| != 3)
      else s.(sent := Some(Sent(t.line.Text() + e.bytes, |t.line.Text()|, ValidEscape)))
  }

  /** The buffers have room for the next byte of an escape sequence, and for the line with
      the whole sequence behind it. */
  predicate HasRoom(t: Typing, c: byte) {
    t.sent.None? && t.esc.bytes != [] ==>
      && |t.esc.bytes| < ESCAPES
      && (Rule(t.esc.state, c).0 || AnyArrow(Longer(t.esc, c)) || |t.line.Text()| + |t.esc.bytes| < BUFFER)
  }

  /** The whole line goes out with a terminator behind it. */
  function Ended(t: Typing, c: byte): Typing {
    var text := t.line.Text();
    t.(line := Line([], [], t.line.insert), sent := Some(Sent(text + [c], |text|, Terminated)))
  }

  /** A line that has reached the limit goes out as it is. */
  function Limited(u: Setup, t: Typing): Typing {
    var text := t.line.Text();
    if |text| >= u.maxReadLen
    then t.(line := Line([], [], t.line.insert), sent := Some(Sent(text, |text| - 1, BufferFull)))
    else t
  }

  /** One byte from the keyboard. */
  function Took(u: Setup, t: Typing, ch: ascii): Typing
    requires u.Valid()
  {
    var c := Swapped(ch);
    if t.sent.Some? then t.(ahead := if |t.ahead| < AHEAD then t.ahead + [c] else t.ahead)
    else if c == ESC && t.esc.bytes == [] && u.escapes then t.(esc := t.esc.(bytes := [c]))
    else if t.esc.bytes == [] && IsTerminator(u.mask, c) then Ended(t, c)
    else if t.esc.bytes != [] then Escaped(t, c)
    else match Meaning(u.upperCase, c)
      case Press(key) => Limited(u, t.(line := Pressed(t.line, key)))
      case Finish => Ended(t, c)
      case Suppress => t.(quiet := true)
      case Repaint => t
      case Ignore => t
  }

  /** All bytes in turn. */
  function TookAll(u: Setup, t: Typing, bytes: seq<ascii>): Typing
    requires u.Valid()
    decreases |bytes|
  {
    if bytes == [] then t else TookAll(u, Took(u, t, bytes[0]), bytes[1..])
  }

  /** The escape sequences among the bytes fit into the buffers. */
  predicate EscapesFit(u: Setup, t: Typing, bytes: seq<ascii>)
    requires u.Valid()
    decreases |bytes|
  {
    bytes == [] || (HasRoom(t, Swapped(bytes[0])) && EscapesFit(u, Took(u, t, bytes[0]), bytes[1..]))
  }

  /** An arrow key moves the cursor exactly when the escape parser starts in one of the two
      states in which it takes the bracket for a beginning; a sequence before that broke off
      can have left it in another one. */
  lemma ArrowKey(u: Setup, t: Typing, right: bool)
    requires u.Valid() && u.escapes && t.sent.None? && t.esc.bytes == [] && State(t.esc.state)
    ensures var last := if right then RIGHT_ARROW else LEFT_ARROW;
      TookAll(u, t, [ESC, BRACKET, last])
        == t.(line := Pressed(t.line, if right then Right else Left), esc := Escape([], last, 0))
      <==> t.esc.state in {0, 30}
  {
    var last := if right then RIGHT_ARROW else LEFT_ARROW;
    ThreeBytes(u, t, ESC, BRACKET, last);
    var t1 := Took(u, t, ESC);
    assert t1 == t.(esc := t.esc.(bytes := [ESC]));
    if t.esc.state in {0, 30} { BracketBegins(u, t1, last); } else { BracketEnds(u, t1, last); }
  }

  lemma BracketBegins(u: Setup, t: Typing, last: ascii)
    requires u.Valid() && t.sent.None? && t.esc.bytes == [ESC] && t.esc.state in {0, 30}
    requires last == RIGHT_ARROW || last == LEFT_ARROW
    ensures Took(u, Took(u, t, BRACKET), last)
         == t.(line := Pressed(t.line, if last == RIGHT_ARROW then Right else Left), esc := Escape([], last, 0))
  {
    var t2 := Took(u, t, BRACKET);
    assert t2.esc.bytes == [ESC, BRACKET];
    assert Longer(t2.esc, last).bytes == [ESC, BRACKET, last];
  }

  lemma BracketEnds(u: Setup, t: Typing, last: ascii)
    requires u.Valid() && t.sent.None? && t.esc.bytes == [ESC] && State(t.esc.state) && t.esc.state !in {0, 30}
    requires last == RIGHT_ARROW || last == LEFT_ARROW
    ensures Took(u, Took(u, t, BRACKET), last)
         != t.(line := Pressed(t.line, if last == RIGHT_ARROW then Right else Left), esc := Escape([], last, 0))
  {
    var t2 := Took(u, t, BRACKET);
    assert Longer(t.esc, BRACKET).bytes == [ESC, BRACKET];
    if t2.sent.None? {
      assert t2.esc == Escape([], t.esc.third, 0);
      TypedLetter(u, t2, last);
      if t.esc.third == last {
        assert t2.line == Pressed(t.line, if last == RIGHT_ARROW then Right else Left);
      }
    }
  }

  /** Outside an escape sequence the last byte of an arrow is typed, or ends the read. */
  lemma TypedLetter(u: Setup, t: Typing, last: ascii)
    requires u.Valid() && t.sent.None? && t.esc.bytes == []
    requires last == RIGHT_ARROW || last == LEFT_ARROW
    ensures var s := Took(u, t, last);
      s.sent.Some? || (s.esc == t.esc && |s.line.left| == |t.line.left| + 1)
  {
  }

  lemma ThreeBytes(u: Setup, t: Typing, a: ascii, b: ascii, c: ascii)
    requires u.Valid()
    ensures TookAll(u, t, [a, b, c]) == Took(u, Took(u, Took(u, t, a), b), c)
  {
    assert [a, b, c][1..] == [b, c] && [b, c][1..] == [c] && [c][1..] == [];
    var t2 := Took(u, Took(u, t, a), b);
    assert TookAll(u, t2, [c]) == TookAll(u, Took(u, t2, c), []);
    assert TookAll(u, Took(u, t, a), [b, c]) == TookAll(u, t2, [c]);
  }

  /** Until something is sent the line stays below the limit; a line sent because it is
      full has exactly the length of the limit, the text of one sent by a terminator or an
      escape sequence is shorter. */
  predicate Fits(u: Setup, t: Typing) {
    match t.sent
    case None => |t.line.Text()| < u.maxReadLen
    case Some(Sent(data, term, reason)) =>
      if reason == BufferFull then |data| == u.maxReadLen == term + 1
      else 0 <= term < u.maxReadLen && term < |data| && (reason == Terminated ==> |data| == term + 1)
  }

  lemma TookFits(u: Setup, t: Typing, ch: ascii)
    requires u.Valid() && Fits(u, t)
    ensures Fits(u, Took(u, t, ch))
  {
  }

  lemma {:induction false} SentFits(u: Setup, t: Typing, bytes: seq<ascii>)
    requires u.Valid() && Fits(u, t)
    ensures Fits(u, TookAll(u, t, bytes))
    decreases |bytes|
  {
    if bytes == [] {
    } else {
      TookFits(u, t, bytes[0]);
      SentFits(u, Took(u, t, bytes[0]), bytes[1..]);
    }
  }

  function SwappedAll(bytes: seq<ascii>): (s: seq<ascii>)
    ensures |s| == |bytes|
  {
    if bytes == [] then [] else [Swapped(bytes[0])] + SwappedAll(bytes[1..])
  }

  /** As much of more as there is room for, behind what is there. */
  function Kept(ahead: seq<ascii>, more: seq<ascii>): seq<ascii> {
    if |ahead| + |more| <= AHEAD then ahead + more else (ahead + more)[..AHEAD]
  }

  lemma KeptStep(ahead: seq<ascii>, c: ascii, more: seq<ascii>)
    requires |ahead| <= AHEAD
    ensures Kept(if |ahead| < AHEAD then ahead + [c] else ahead, more) == Kept(ahead, [c] + more)
  {
    if |ahead| < AHEAD {
      assert ahead + [c] + more == ahead + ([c] + more);
    } else {
      assert (ahead + more)[..AHEAD] == ahead && (ahead + ([c] + more))[..AHEAD] == ahead;
    }
  }

  /** What comes after the line has been sent waits for the next read, in order, as far
      as there is room. */
  lemma {:induction false} KeptAhead(u: Setup, t: Typing, bytes: seq<ascii>)
    requires u.Valid() && t.sent.Some? && |t.ahead| <= AHEAD
    ensures TookAll(u, t, bytes) == t.(ahead := Kept(t.ahead, SwappedAll(bytes)))
    decreases |bytes|
  {
    if bytes == [] {
      assert t.ahead + [] == t.ahead;
    } else {
      KeptAhead(u, Took(u, t, bytes[0]), bytes[1..]);
      KeptStep(t.ahead, Swapped(bytes[0]), SwappedAll(bytes[1..]));
    }
  }

  /** A prompt and prefilled text on a fresh line. */
  lemma PromptShows(prompt: seq<byte>, prefill: seq<byte>)
    ensures Shows(Screen([], 0).PutAll(prompt).PutAll(prefill), prompt, prefill, |prefill|)
  {
    var s := Screen([], 0).PutAll(prompt);
    PutAllAt(Screen([], 0), prompt, 0);
    PutAllAt(s, prefill, 0);
    forall i: nat ensures s.PutAll(prefill).At(i) == Cell(prompt, prefill, i) {
      PutAllAt(Screen([], 0), prompt, i);
      PutAllAt(s, prefill, i);
    }
  }

  // ---- The editor ----

  /** What the terminal makes of an echoed terminator. Return goes to the start of the
      line, a printable character is put; what other control characters do depends on
      the terminal and is not said here. */
  function Echoed(s: Screen, c: byte): Screen {
    if c == CR then Screen(s.cells, 0) else if c < 32 || c == DEL then s else s.Put(c)
  }

  /** One read: the buffer, what the line on the terminal shows, and what is sent. */
  class Editor {
    const inputBuf: array<byte>
    const prompt: seq<byte>        // what the prompt left on the line
    const u: Setup
    const echoTerminator: bool
    var inputLen: nat
    var inputPos: nat
    var insertMode: bool
    var escBuf: seq<byte>
    var escThird: byte             // the third place of its storage, also when it is shorter
    var escState: nat
    var aheadBuf: seq<ascii>
    var readPending: bool
    var echo: bool
    var discard: int               // any value but zero suppresses output
    var screen: Screen
    var sent: Option<Sent>
    ghost var shown: Screen        // when the line was sent, before its terminator was echoed
    ghost var quiet: bool          // whether output was ever suppressed

    ghost predicate Valid()
      reads this
    {
      && inputBuf.Length == BUFFER && prompt != [] && u.Valid()
      && inputPos <= inputLen < u.maxReadLen && |escBuf| <= ESCAPES
      && readPending == sent.None? && (sent.Some? ==> escBuf == [])
    }

    /** The line being edited. */
    ghost function Edited(): Line
      reads this, inputBuf
      requires Valid()
    {
      Line(inputBuf[..inputPos], inputBuf[inputPos..inputLen], insertMode)
    }

    ghost function Now(): Typing
      reads this, inputBuf
      requires Valid()
    {
      Typing(Edited(), Escape(escBuf, escThird, escState), sent, aheadBuf, quiet)
    }

    ghost predicate Visible()
      reads this, inputBuf
      requires Valid()
    {
      Shows(screen, prompt, inputBuf[..inputLen], inputPos)
    }

    /** What you see is what is sent: before the line goes out the terminal shows it, and
        what goes out is what the terminal showed. */
    ghost predicate Seen()
      reads this, inputBuf
      requires Valid()
    {
      if sent.None? then Visible() && Echoing()
      else
        && (exists pos: nat :: Shows(shown, prompt, sent.value.Text(), pos))
        && (screen == shown || (echoTerminator && sent.value.data != [] && screen == Echoed(shown, Last(sent.value.data))))
    }

    /** Starts a read after a prompt on a fresh line; the prefilled text leaves room in the
        buffer. Insert mode, suppressed output, the escape parser and what is kept of the
        bytes typed ahead are as the read before left them. */
    constructor (prompt: seq<byte>, prefill: seq<byte>, u: Setup, echoTerminator: bool,
                 insertMode: bool, discard: int, esc: Escape, ahead: seq<ascii>)
      requires prompt != [] && u.Valid() && |prefill| < u.maxReadLen && esc.bytes == []
      ensures Valid() && fresh(inputBuf) && this.prompt == prompt && this.u == u
      ensures this.echoTerminator == echoTerminator && this.discard == discard
      ensures Now() == Typing(Line(prefill, [], insertMode), esc, None, ahead, discard != 0)
      ensures discard == 0 ==> Seen()
    {
      inputBuf := new byte[BUFFER](i => if 0 <= i < |prefill| then prefill[i] else 0);
      this.prompt, this.u, this.echoTerminator := prompt, u, echoTerminator;
      inputLen, inputPos := |prefill|, |prefill|;
      this.insertMode, this.discard, echo, readPending, quiet := insertMode, discard, true, true, discard != 0;
      escBuf, escThird, escState, aheadBuf, sent := [], esc.third, esc.state, ahead, None;
      screen := if discard == 0 then Screen([], 0).PutAll(prompt).PutAll(prefill) else Screen([], 0);
      new;
      assert inputBuf[..inputLen] == prefill;
      PromptShows(prompt, prefill);
    }

    // ---- Output ----

    method Show(s: Screen)
      modifies `screen
      ensures screen == if discard == 0 then s else old(screen)
    {
      if discard == 0 {
        screen := s;
      }
    }

    method RedrawInputLine()
      requires inputLen <= inputBuf.Length
      modifies `screen
      ensures echo && discard == 0 ==> screen == Redraw(old(screen), |prompt|, inputBuf[..inputLen], inputPos)
      ensures !echo || discard != 0 ==> screen == old(screen)
    {
      if !echo {
        return;
      }
      Show(screen.MoveTo(|prompt|));
      Show(screen.EraseEol());
      Show(screen.PutAll(inputBuf[..inputLen]));
      Show(screen.MoveTo(|prompt| + inputPos));
    }

    /** What is seen is to be kept up to date. */
    predicate Echoing()
      reads this
    {
      echo && discard == 0
    }

    // ---- Sending ----

    method SendInputBuffer(reason: Reason)
      requires inputLen <= BUFFER == inputBuf.Length
      modifies `inputLen, `inputPos, `echo, `sent, `readPending
      ensures sent == Some(Sent(old(inputBuf[..inputLen]), old(inputLen) - 1, reason)) && !readPending
      ensures inputLen == inputPos == 0 && echo
    {
      sent, readPending := Some(Sent(inputBuf[..inputLen], inputLen - 1, reason)), false;
      inputLen, inputPos := 0, 0;
      echo := true;
    }

    /** A terminator goes behind the text, wherever the cursor is, and the line is
        sent. */
    method Terminate(c: byte, echoed: bool)
      requires Valid() && sent.None? && escBuf == [] && (echoed ==> echoTerminator)
      modifies `inputLen, `inputPos, `echo, `sent, `readPending, `screen, `shown, inputBuf
      ensures Valid() && Now() == Ended(old(Now()), c)
      ensures old(Seen()) ==> Seen()
      ensures old(Seen()) && !echoed ==> screen == old(screen)
    {
      TextIs(inputBuf[..], inputPos, inputLen);
      shown := screen;
      if echo && echoed {
        Show(Echoed(screen, c));
      }
      SendWith(c);
    }

    /** Puts the terminator behind the text and sends it all. */
    method SendWith(c: byte)
      requires inputPos <= inputLen < BUFFER == inputBuf.Length
      modifies `inputLen, `inputPos, `echo, `sent, `readPending, inputBuf
      ensures sent == Some(Sent(old(inputBuf[..inputLen]) + [c], old(inputLen), Terminated)) && !readPending
      ensures inputLen == inputPos == 0 && echo
      ensures Shows(shown, prompt, old(inputBuf[..inputLen]), old(inputPos)) ==>
                exists pos: nat :: Shows(shown, prompt, sent.value.Text(), pos)
    {
      ghost var text, pos := inputBuf[..inputLen], inputPos;
      inputBuf[inputLen] := c;
      inputLen := inputLen + 1;
      assert inputBuf[..inputLen] == text + [c];
      SendInputBuffer(Terminated);
      assert sent.value.Text() == text;
    }

    /** A line that has reached its limit is sent as it is. */
    method SendFull()
      requires inputPos <= inputLen <= BUFFER == inputBuf.Length
      modifies `inputLen, `inputPos, `echo, `sent, `readPending
      ensures sent == Some(Sent(old(inputBuf[..inputLen]), old(inputLen) - 1, BufferFull)) && !readPending
      ensures inputLen == inputPos == 0 && echo
      ensures Shows(shown, prompt, old(inputBuf[..inputLen]), old(inputPos)) ==>
                exists pos: nat :: Shows(shown, prompt, sent.value.Text(), pos)
    {
      ghost var text, pos := inputBuf[..inputLen], inputPos;
      SendInputBuffer(BufferFull);
      assert sent.value.Text() == text;
    }

    // ---- Keys ----

    /** Puts a character into the buffer; the rest of the line moves up when inserting. */
    method StoreChar(c: byte)
      requires inputBuf.Length == BUFFER && inputPos <= inputLen < BUFFER
      modifies `inputLen, `inputPos, inputBuf
      ensures inputPos == old(inputPos) + 1 <= inputLen <= BUFFER
      ensures Line(inputBuf[..inputPos], inputBuf[inputPos..inputLen], insertMode)
           == Pressed(old(Line(inputBuf[..inputPos], inputBuf[inputPos..inputLen], insertMode)), Char(c))
    {
      ghost var left, right := inputBuf[..inputPos], inputBuf[inputPos..inputLen];
      if insertMode && inputLen > inputPos {
        forall i | inputPos < i <= inputLen { inputBuf[i] := inputBuf[i - 1]; }
        inputLen := inputLen + 1;
        assert inputBuf[..inputPos] == left && inputBuf[inputPos + 1..inputLen] == right;
      }
      inputBuf[inputPos] := c;
      inputPos := inputPos + 1;
      if inputLen < inputPos {
        inputLen := inputPos;
      }
      assert inputBuf[..inputPos] == left + [c];
      assert inputBuf[inputPos..inputLen] == if insertMode || right == [] then right else right[1..];
    }

    method ToUpper(ch: byte) returns (c: byte)
      ensures c == Folded(u.upperCase, ch)
    {
      c := ch;
      if u.upperCase && (65 <= c <= 90 || 97 <= c <= 122) {
        Mask5F(c);
        c := And(c, 0x5F);
      }
    }

    /** Echoes and stores a character. */
    method PutChar(c: byte)
      requires Valid()
      modifies `inputLen, `inputPos, `screen, inputBuf
      ensures inputPos <= inputLen <= BUFFER
      ensures Line(inputBuf[..inputPos], inputBuf[inputPos..inputLen], insertMode) == Pressed(old(Edited()), Char(c))
      ensures old(Visible()) && Echoing() ==>
                var p := Pressed(old(Edited()), Char(c)); Shows(screen, prompt, p.Text(), |p.left|)
    {
      ghost var l, scr := Edited(), screen;
      TextIs(inputBuf[..], inputPos, inputLen);
      if echo && !insertMode {
        Show(screen.Put(c));
      }
      StoreChar(c);
      TextIs(inputBuf[..], inputPos, inputLen);
      if insertMode {
        RedrawInputLine();
      }
      if Shows(scr, prompt, l.Text(), |l.left|) { CharShows(scr, prompt, l, c); }
    }

    /** A printable character: it overwrites, or the rest of the line moves up. A full
        line is sent. */
    method TypeChar(ch: byte)
      requires Valid() && sent.None? && escBuf == []
      modifies `inputLen, `inputPos, `screen, `echo, `sent, `readPending, `shown, inputBuf
      ensures Valid()
      ensures var t := old(Now());
        Now() == Limited(u, t.(line := Pressed(t.line, Char(Folded(u.upperCase, ch)))))
      ensures old(Seen()) ==> Seen()
    {
      var c := ToUpper(ch);
      PutChar(c);
      Limit(Pressed(old(Edited()), Char(c)));
    }

    /** Sends the line when it has reached the limit. */
    method Limit(ghost p: Line)
      requires inputBuf.Length == BUFFER && prompt != [] && u.Valid() && escBuf == []
      requires readPending && sent.None? && inputPos <= inputLen <= BUFFER
      requires p == Line(inputBuf[..inputPos], inputBuf[inputPos..inputLen], insertMode)
      modifies `inputLen, `inputPos, `echo, `sent, `readPending, `shown
      ensures Valid() && Now() == Limited(u, Typing(p, Escape(escBuf, escThird, escState), None, aheadBuf, quiet))
      ensures Shows(screen, prompt, p.Text(), |p.left|) && old(Echoing()) ==> Seen()
    {
      TextIs(inputBuf[..], inputPos, inputLen);
      shown := screen;
      if inputLen >= u.maxReadLen {
        SendFull();
      }
    }

    /** The keys that act on the whole line. */
    method Control(key: Key)
      requires Valid() && key in {Kill, Home, End, Toggle}
      modifies `inputLen, `inputPos, `insertMode, `screen
      ensures Valid() && Edited() == Pressed(old(Edited()), key)
      ensures old(Visible()) && Echoing() ==> Visible()
    {
      match key {
        case Kill => KillLine();
        case Home => GoHome();
        case End => GoEnd();
        case Toggle => insertMode := !insertMode;
      }
    }

    method KillLine()
      requires Valid()
      modifies `inputLen, `inputPos, `screen
      ensures Valid() && Edited() == Pressed(old(Edited()), Kill)
      ensures old(Visible()) && Echoing() ==> Visible()
    {
      ghost var text, scr := inputBuf[..inputLen], screen;
      if Shows(scr, prompt, text, inputPos) { KillShows(scr, prompt, text, inputPos); }
      Show(screen.MoveTo(|prompt|));
      if echo {
        Show(screen.EraseEol());
      }
      inputPos, inputLen := 0, 0;
      assert inputBuf[..inputLen] == [];
    }

    method GoHome()
      requires Valid()
      modifies `inputPos, `screen
      ensures Valid() && Edited() == Pressed(old(Edited()), Home)
      ensures old(Visible()) && Echoing() ==> Visible()
    {
      TextIs(inputBuf[..], inputPos, inputLen);
      if echo {
        Show(screen.MoveTo(|prompt|));
      }
      inputPos := 0;
    }

    method GoEnd()
      requires Valid()
      modifies `inputPos, `screen
      ensures Valid() && Edited() == Pressed(old(Edited()), End)
      ensures old(Visible()) && Echoing() ==> Visible()
    {
      TextIs(inputBuf[..], inputPos, inputLen);
      if echo {
        Show(screen.MoveTo(inputLen + |prompt|));
      }
      inputPos := inputLen;
    }

    /** The arrow keys; their sequence is echoed when the cursor moves. */
    method GoRight()
      requires Valid()
      modifies `inputPos, `screen
      ensures Valid() && Edited() == Pressed(old(Edited()), Right)
      ensures old(Visible()) && Echoing() ==> Visible()
    {
      if inputPos < inputLen {
        StepText(inputBuf[..], inputPos, inputLen);
        inputPos := inputPos + 1;
        if echo {
          Show(screen.Forward());
        }
      }
    }

    method GoLeft()
      requires Valid()
      modifies `inputPos, `screen
      ensures Valid() && Edited() == Pressed(old(Edited()), Left)
      ensures old(Visible()) && Echoing() ==> Visible()
    {
      if inputPos > 0 {
        StepText(inputBuf[..], inputPos - 1, inputLen);
        inputPos := inputPos - 1;
        if echo {
          Show(screen.Backward());
        }
      }
    }

    method DeleteChar()
      requires Valid()
      modifies `inputLen, `inputPos, `screen, inputBuf
      ensures Valid() && Edited() == Pressed(old(Edited()), Delete)
      ensures old(Visible()) && Echoing() ==> Visible()
    {
      if inputPos > 0 {
        EraseChar();
      }
    }

    method EraseChar()
      requires Valid() && inputPos > 0
      modifies `inputLen, `inputPos, `screen, inputBuf
      ensures Valid() && Edited() == Pressed(old(Edited()), Delete)
      ensures old(Visible()) && Echoing() ==> Visible()
    {
      ghost var l, scr := Edited(), screen;
      TextIs(inputBuf[..], inputPos, inputLen);
      RemoveChar();
      ghost var p := Pressed(l, Delete);
      assert Edited() == p;
      ShowErased();
      TextIs(inputBuf[..], inputPos, inputLen);
      if Shows(scr, prompt, l.Text(), |l.left|) { DeleteShows(scr, prompt, l); }
    }

    /** Wipes the character before the cursor, and what has moved up is drawn again. */
    method ShowErased()
      requires Valid()
      modifies `screen
      ensures Echoing() ==>
                var d := old(screen).Backward().Put(BLANK).Backward();
                screen == if inputPos != inputLen then Redraw(d, |prompt|, inputBuf[..inputLen], inputPos) else d
    {
      if echo {
        Show(screen.Backward().Put(BLANK).Backward());
      }
      if inputPos != inputLen {
        RedrawInputLine();
      }
    }

    /** Takes the character before the cursor out of the buffer. */
    method RemoveChar()
      requires inputBuf.Length == BUFFER && 0 < inputPos <= inputLen <= BUFFER
      modifies `inputLen, `inputPos, inputBuf
      ensures inputPos == old(inputPos) - 1 && inputLen == old(inputLen) - 1
      ensures Line(inputBuf[..inputPos], inputBuf[inputPos..inputLen], insertMode)
           == Pressed(old(Line(inputBuf[..inputPos], inputBuf[inputPos..inputLen], insertMode)), Delete)
    {
      inputPos := inputPos - 1;
      inputLen := inputLen - 1;
      if inputPos != inputLen {
        forall i | inputPos <= i < inputLen { inputBuf[i] := inputBuf[i + 1]; }
      }
    }

    /** A control character that is no terminator, or DEL. */
    method ControlByte(c: byte)
      requires Valid() && sent.None? && escBuf == [] && (c < 32 || c == DEL)
      modifies this, inputBuf
      ensures Valid()
      ensures var t := old(Now());
        Now() == match Meaning(u.upperCase, c)
          case Press(key) => Limited(u, t.(line := Pressed(t.line, key)))
          case Finish => Ended(t, c)
          case Suppress => t.(quiet := true)
          case _ => t
      ensures old(Seen()) && !quiet ==> Seen()
    {
      if c == CR {
        Terminate(c, false);
      } else if c == 15 {
        discard, quiet := -1 - discard, true;
      } else if c == 23 {
        Repainted();
      } else if c in {1, 5, 8, 21, 24, DEL} {
        EditKey(if c == 1 then Toggle else if c == 5 then End else if c == 8 then Home
                else if c == DEL then Delete else Kill);
      }
    }

    /** A key that edits the line, and never makes it longer. */
    method EditKey(key: Key)
      requires Valid() && sent.None? && escBuf == [] && key in {Kill, Home, End, Toggle, Delete}
      modifies `inputLen, `inputPos, `insertMode, `screen, inputBuf
      ensures Valid()
      ensures var t := old(Now()); Now() == Limited(u, t.(line := Pressed(t.line, key)))
      ensures old(Seen()) ==> Seen()
    {
      TextIs(inputBuf[..], inputPos, inputLen);
      Shrunk(Edited(), key);
      if key == Delete {
        DeleteChar();
      } else {
        Control(key);
      }
    }

    /** Redrawing the line shows what it showed. */
    method Repainted()
      requires Valid()
      modifies `screen
      ensures Valid() && (old(Visible()) && Echoing() ==> Visible())
    {
      ghost var scr, text := screen, inputBuf[..inputLen];
      RedrawInputLine();
      if Shows(scr, prompt, text, inputPos) && Echoing() {
        forall i: nat | i < |prompt| ensures scr.At(i) == prompt[i] { assert scr.At(i) == Cell(prompt, text, i); }
        RedrawShows(scr, prompt, text, inputPos);
      }
    }

    /** The escape parser: whether the sequence goes on behind c. */
    method ParseEscape(c: byte) returns (more: bool)
      modifies `escState
      ensures (more, escState) == Rule(old(escState), c)
    {
      more := true;
      if escState == 0 {
        if c == 63 || c == 59 { escState := 10; return; }
        if c == 79 { escState := 20; return; }
        if c == 89 { escState := 30; return; }
        if c == BRACKET { escState := 15; return; }
      }
      if escState <= 10 {
        if 32 <= c <= 47 { escState := 10; return; }
        if 48 <= c <= 126 { escState := 0; return false; }
      }
      if escState <= 15 {
        if 48 <= c <= 63 { escState := 15; return; }
      }
      if escState <= 20 {
        if 32 <= c <= 47 { escState := 20; return; }
        if 64 <= c <= 126 { escState := 0; return false; }
      }
      if escState <= 30 {
        if 32 <= c <= 126 { escState := 40; return; }
      }
      if escState <= 40 {
        if 32 <= c <= 126 { escState := 0; return false; }
      }
      more := false;
    }

    /** An arrow moves the cursor; its sequence is echoed, as far as it has come. */
    method Arrow(right: bool)
      requires Valid() && sent.None?
      modifies `inputPos, `screen, `escBuf, `quiet
      ensures Valid()
      ensures var t := old(Now());
        Now() == t.(esc := t.esc.(bytes := []), line := Pressed(t.line, if right then Right else Left),
                    quiet := t.quiet || |t.esc.bytes| != 3)
      ensures old(Seen()) ==> Seen()
    {
      if right {
        GoRight();
      } else {
        GoLeft();
      }
      quiet := quiet || |escBuf| != 3;
      escBuf := [];
    }

    /** An escape sequence of another kind goes out behind the line, which stays. */
    method SendEscape()
      requires Valid() && sent.None? && inputLen + |escBuf| <= BUFFER
      modifies `echo, `sent, `readPending, `shown, `escBuf, inputBuf
      ensures Valid()
      ensures var t := old(Now());
        Now() == t.(esc := t.esc.(bytes := []),
                    sent := Some(Sent(t.line.Text() + t.esc.bytes, |t.line.Text()|, ValidEscape)))
      ensures old(Seen()) ==> Seen()
    {
      ghost var t, text := Now(), inputBuf[..inputLen];
      TextIs(inputBuf[..], inputPos, inputLen);
      assert t.line.Text() == text;
      shown := screen;
      SendBehind();
      assert Now() == t.(esc := t.esc.(bytes := []), sent := Some(Sent(text + t.esc.bytes, |text|, ValidEscape)));
    }

    /** Puts the escape sequence behind the text in the buffer and sends it all. */
    method SendBehind()
      requires inputPos <= inputLen && inputLen + |escBuf| <= BUFFER == inputBuf.Length
      modifies `echo, `sent, `readPending, `escBuf, inputBuf
      ensures sent == Some(Sent(old(inputBuf[..inputLen]) + old(escBuf), inputLen, ValidEscape)) && !readPending
      ensures escBuf == [] && echo
      ensures inputBuf[..inputPos] == old(inputBuf[..inputPos])
      ensures inputBuf[inputPos..inputLen] == old(inputBuf[inputPos..inputLen])
      ensures Shows(shown, prompt, old(inputBuf[..inputLen]), old(inputPos)) ==>
                exists pos: nat :: Shows(shown, prompt, sent.value.Text(), pos)
    {
      ghost var text, pos := inputBuf[..inputLen], inputPos;
      forall i | 0 <= i < |escBuf| { inputBuf[inputLen + i] := escBuf[i]; }
      assert inputBuf[..inputLen + |escBuf|] == text + escBuf;
      sent, readPending := Some(Sent(inputBuf[..inputLen + |escBuf|], inputLen, ValidEscape)), false;
      assert sent.value.Text() == text;
      escBuf, echo := [], true;
    }

    /** Another byte of an escape sequence. */
    method TakeEscape(c: byte)
      requires Valid() && sent.None? && escBuf != [] && HasRoom(Now(), c)
      modifies `inputPos, `screen, `escBuf, `escThird, `escState, `quiet, `echo, `sent, `readPending, `shown, inputBuf
      ensures Valid() && Now() == Escaped(old(Now()), c)
      ensures old(Seen()) && !quiet ==> Seen()
      ensures old(quiet) ==> quiet
    {
      TextIs(inputBuf[..], inputPos, inputLen);
      var more := PutEscape(c);
      if !more {
        if |escBuf| >= 2 && escBuf[0] == ESC && escBuf[1] == BRACKET && escThird == RIGHT_ARROW {
          Arrow(true);
        } else if |escBuf| >= 2 && escBuf[0] == ESC && escBuf[1] == BRACKET && escThird == LEFT_ARROW {
          Arrow(false);
        } else {
          SendEscape();
        }
      }
    }

    /** Keeps a byte of an escape sequence; false when it is the last. */
    method PutEscape(c: byte) returns (more: bool)
      requires Valid() && sent.None? && |escBuf| < ESCAPES
      modifies `escBuf, `escThird, `escState
      ensures Valid() && more == Rule(old(escState), c).0
      ensures Now() == old(Now()).(esc := Longer(old(Now()).esc, c))
      ensures old(Seen()) ==> Seen()
    {
      if |escBuf| == 2 {
        escThird := c;
      }
      escBuf := escBuf + [c];
      more := ParseEscape(c);
    }

    method IsTerminatorByte(c: ascii) returns (t: bool)
      requires Valid()
      ensures t == IsTerminator(u.mask, c)
    {
      t := And(u.mask[c / 8], Pow2(c % 8)) != 0;
    }

    /** One byte from the keyboard. */
    method TakeByte(ch: ascii)
      requires Valid() && HasRoom(Now(), Swapped(ch))
      modifies this, inputBuf
      ensures Valid() && Now() == Took(u, old(Now()), ch)
      ensures old(Seen()) && !quiet ==> Seen()
      ensures old(quiet) ==> quiet
    {
      var c := Swapped(ch);
      if !readPending {
        if |aheadBuf| < AHEAD {
          aheadBuf := aheadBuf + [c];
        }
        return;
      }
      if c == ESC && escBuf == [] && u.escapes {
        escBuf := [c];
        return;
      }
      var ends := IsTerminatorByte(c);
      if escBuf == [] && ends {
        Terminate(c, echoTerminator);
      } else {
        TakeOther(c);
      }
    }

    /** A byte that does not end the read nor begin an escape sequence. */
    method TakeOther(c: ascii)
      requires Valid() && sent.None? && HasRoom(Now(), c)
      modifies this, inputBuf
      ensures Valid()
      ensures var t := old(Now());
        Now() == if t.esc.bytes != [] then Escaped(t, c)
                 else match Meaning(u.upperCase, c)
                   case Press(key) => Limited(u, t.(line := Pressed(t.line, key)))
                   case Finish => Ended(t, c)
                   case Suppress => t.(quiet := true)
                   case _ => t
      ensures old(Seen()) && !quiet ==> Seen()
      ensures old(quiet) ==> quiet
    {
      if escBuf != [] {
        TakeEscape(c);
      } else if c < 32 || c == DEL {
        ControlByte(c);
      } else {
        TypeChar(c);
      }
    }

    /** Input from the keyboard, byte by byte. Whatever was typed, edited, killed or filled
        the line: what you see is what is sent. */
    method ProcessTerminal(bytes: seq<ascii>)
      requires Valid() && EscapesFit(u, Now(), bytes)
      modifies this, inputBuf
      ensures Valid() && Now() == TookAll(u, old(Now()), bytes)
      ensures old(Seen()) && !quiet ==> Seen()
    {
      var i := 0;
      while i < |bytes|
        invariant i <= |bytes| && Valid() && EscapesFit(u, Now(), bytes[i..])
        invariant TookAll(u, Now(), bytes[i..]) == TookAll(u, old(Now()), bytes)
        invariant old(Seen()) && !quiet ==> Seen()
      {
        assert bytes[i..][0] == bytes[i] && bytes[i..][1..] == bytes[i + 1..];
        TakeByte(bytes[i]);
        i := i + 1;
      }
    }
  }

  function Last(s: seq<byte>): byte
    requires s != []
  {
    s[|s| - 1]
  }

  /** Keys other than characters never make the line longer. */
  lemma Shrunk(l: Line, key: Key)
    requires !key.Char?
    ensures |Pressed(l, key).Text()| <= |l.Text()|
  {
  }

  // ---- Terminators ----

  /** Whether a character is in the terminator mask of the current read. */
  predicate IsTerminator(mask: seq<byte>, c: ascii)
    requires |mask| == 16
  {
    And(mask[c / 8], Pow2(c % 8)) != 0
  }

  const DEFAULT_MASK: seq<byte> := [0xDD, 0xFC, 0x5B, 0xDF] + seq(12, _ => 0)

  /** The characters that do not end a read by default. The comment in the source
      means to spare control-X (24), but the bit it clears is that of 29. */
  lemma DefaultTerminators(c: ascii)
    ensures IsTerminator(DEFAULT_MASK, c) <==> c < 32 && c !in {1, 5, 8, 9, 18, 21, 23, 29}
  {
    AndPow2(DEFAULT_MASK[c / 8], c % 8);
    MaskRow(DEFAULT_MASK[c / 8], c % 8);
  }

  lemma MaskRow(m: nat, k: nat)
    requires k < 8
    ensures m == 0xDD ==> (Bit(m, k) <==> k !in {1, 5})
    ensures m == 0xFC ==> (Bit(m, k) <==> k !in {0, 1})
    ensures m == 0x5B ==> (Bit(m, k) <==> k !in {2, 5, 7})
    ensures m == 0xDF ==> (Bit(m, k) <==> k !in {5})
    ensures m == 0 ==> !Bit(m, k)
  {
    RowDD(k);
    RowFC(k);
    Row5B(k);
    RowDF(k);
    ZeroHasNoBit(k);
  }

  lemma RowDD(k: nat)
    requires k < 8
    ensures Bit(0xDD, k) <==> k !in {1, 5}
  {
    assert Bit(0xDD, 0) && !Bit(0xDD, 1) && Bit(0xDD, 2) && Bit(0xDD, 3) && Bit(0xDD, 4) && !Bit(0xDD, 5) && Bit(0xDD, 6) && Bit(0xDD, 7);
  }

  lemma RowFC(k: nat)
    requires k < 8
    ensures Bit(0xFC, k) <==> k !in {0, 1}
  {
    assert !Bit(0xFC, 0) && !Bit(0xFC, 1) && Bit(0xFC, 2) && Bit(0xFC, 3) && Bit(0xFC, 4) && Bit(0xFC, 5) && Bit(0xFC, 6) && Bit(0xFC, 7);
  }

  lemma Row5B(k: nat)
    requires k < 8
    ensures Bit(0x5B, k) <==> k !in {2, 5, 7}
  {
    assert Bit(0x5B, 0) && Bit(0x5B, 1) && !Bit(0x5B, 2) && Bit(0x5B, 3) && Bit(0x5B, 4) && !Bit(0x5B, 5) && Bit(0x5B, 6) && !Bit(0x5B, 7);
  }

  lemma RowDF(k: nat)
    requires k < 8
    ensures Bit(0xDF, k) <==> k !in {5}
  {
    assert Bit(0xDF, 0) && Bit(0xDF, 1) && Bit(0xDF, 2) && Bit(0xDF, 3) && Bit(0xDF, 4) && !Bit(0xDF, 5) && Bit(0xDF, 6) && Bit(0xDF, 7);
  }

  lemma StepText(buf: seq<byte>, pos: nat, len: nat)
    requires pos < len <= |buf|
    ensures buf[..pos + 1] == buf[..pos] + [buf[pos]] && buf[pos..len] == [buf[pos]] + buf[pos + 1..len]
    ensures buf[..pos + 1][..pos] == buf[..pos] && buf[pos..len][1..] == buf[pos + 1..len]
  {
  }

  /** Clearing bit 5 of a letter makes it a capital. */
  lemma Mask5F(c: byte)
    requires 65 <= c <= 90 || 97 <= c <= 122
    ensures And(c, 0x5F) == if c >= 97 then c - 32 else c
  {
    assert Pow2(5) == 32;
    AndLow(c, 95, 5);
  }

  /** A mask with its top two digits 10 and n ones below, on a number whose top two
      digits are 10 or 11. */
  lemma {:induction false} AndLow(x: nat, mask: nat, n: nat)
    requires mask == 3 * Pow2(n) - 1 && 2 * Pow2(n) <= x < 4 * Pow2(n)
    ensures And(x, mask) == 2 * Pow2(n) + (if x < 3 * Pow2(n) then x - 2 * Pow2(n) else x - 3 * Pow2(n))
  {
    if n == 0 {
      assert And(2, 2) == 2 && And(3, 2) == 2;
    } else {
      AndLow(x / 2, 3 * Pow2(n - 1) - 1, n - 1);
      AndOdd(x, 3 * Pow2(n - 1) - 1);
    }
  }

  lemma AndOdd(x: nat, y: nat)
    ensures And(x, 2 * y + 1) == 2 * And(x / 2, y) + x % 2
  {
    assert (2 * y + 1) / 2 == y && (2 * y + 1) % 2 == 1;
  }

  lemma TextIs(buf: seq<byte>, pos: nat, len: nat)
    requires pos <= len <= |buf|
    ensures buf[..pos] + buf[pos..len] == buf[..len]
  {
  }

  lemma KillShows(s: Screen, prompt: seq<byte>, text: seq<byte>, pos: nat)
    requires prompt != [] && Shows(s, prompt, text, pos)
    ensures Shows(s.MoveTo(|prompt|).EraseEol(), prompt, [], 0)
  {
    forall i: nat ensures s.MoveTo(|prompt|).EraseEol().At(i) == Cell(prompt, [], i) {
      assert s.At(i) == Cell(prompt, text, i);
    }
  }

  /** Echoing a character, or redrawing after an insertion, keeps the line up to date. */
  lemma CharShows(s: Screen, prompt: seq<byte>, l: Line, c: byte)
    requires prompt != [] && Shows(s, prompt, l.Text(), |l.left|)
    ensures var p := Pressed(l, Char(c));
      Shows(if l.insert then Redraw(s, |prompt|, p.Text(), |p.left|) else s.Put(c), prompt, p.Text(), |p.left|)
  {
    var p := Pressed(l, Char(c));
    if l.insert {
      forall i: nat | i < |prompt| ensures s.At(i) == prompt[i] { assert s.At(i) == Cell(prompt, l.Text(), i); }
      RedrawShows(s, prompt, p.Text(), |p.left|);
    } else {
      forall i: nat ensures s.Put(c).At(i) == Cell(prompt, p.Text(), i) {
        PutAt(s, c, i);
        assert s.At(i) == Cell(prompt, l.Text(), i);
      }
    }
  }

  lemma DeleteShows(s: Screen, prompt: seq<byte>, l: Line)
    requires prompt != [] && l.left != [] && Shows(s, prompt, l.Text(), |l.left|)
    ensures var p, d := Pressed(l, Delete), s.Backward().Put(BLANK).Backward();
      Shows(if l.right != [] then Redraw(d, |prompt|, p.Text(), |p.left|) else d, prompt, p.Text(), |p.left|)
  {
    var p, b := Pressed(l, Delete), s.Backward();
    var d := b.Put(BLANK).Backward();
    forall i: nat ensures d.At(i) == if i == s.cursor - 1 then BLANK else Cell(prompt, l.Text(), i) {
      PutAt(b, BLANK, i);
      assert s.At(i) == Cell(prompt, l.Text(), i);
    }
    if l.right != [] {
      RedrawShows(d, prompt, p.Text(), |p.left|);
    } else {
      forall i: nat ensures d.At(i) == Cell(prompt, p.Text(), i) { }
    }
  }
}
