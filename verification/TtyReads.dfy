/** One read after another: what was typed after a line was sent is fed to the next
    read. The bytes are taken from the buffer of bytes typed ahead while those that come
    after the next line goes out are put into the same buffer. */
module TtyReads {
  import opened Bits
  import opened Wrappers
  import opened TtyEscape
  import opened Tty

  /** How many of the bytes typed ahead a read takes. */
  function Room(prefill: seq<byte>, ahead: seq<ascii>): (n: nat)
    requires |prefill| <= BUFFER
    ensures n <= |ahead|
  {
    if |prefill| + |ahead| > BUFFER then BUFFER - |prefill| else |ahead|
  }

  /** A read before it has taken any byte. Bytes there is no room for are counted as kept,
      and those that stand at the start of the buffer are taken for them. */
  function Begun(prefill: seq<byte>, insert: bool, quiet: bool, esc: Escape, ahead: seq<ascii>): Typing
    requires |prefill| <= BUFFER
  {
    Typing(Line(prefill, [], insert), esc, None, ahead[..|ahead| - Room(prefill, ahead)], quiet)
  }

  /** Byte i of the buffer, where again has been put into it. */
  function AheadAt(ahead: seq<ascii>, again: seq<ascii>, i: nat): ascii
    requires i < |ahead|
  {
    if i < |again| then again[i] else ahead[i]
  }

  /** Bytes i to n of the buffer go into the read. */
  function Fed(u: Setup, t: Typing, ahead: seq<ascii>, i: nat, n: nat): Typing
    requires u.Valid() && i <= n <= |ahead|
    decreases n - i
  {
    if i == n then t else Fed(u, Took(u, t, AheadAt(ahead, t.ahead, i)), ahead, i + 1, n)
  }

  /** The escape sequences among them fit into the buffers. */
  predicate FedFits(u: Setup, t: Typing, ahead: seq<ascii>, i: nat, n: nat)
    requires u.Valid() && i <= n <= |ahead|
    decreases n - i
  {
    i == n || (
      var c := AheadAt(ahead, t.ahead, i);
      HasRoom(t, Swapped(c)) && FedFits(u, Took(u, t, c), ahead, i + 1, n))
  }

  /** Starts the read after one whose line has been sent. */
  method StartRead(before: Editor, prompt: seq<byte>, prefill: seq<byte>, u: Setup, echoTerminator: bool)
      returns (e: Editor)
    requires before.Valid() && before.sent.Some?
    requires prompt != [] && u.Valid() && |prefill| < u.maxReadLen
    requires FedFits(u, Begun(prefill, before.insertMode, before.discard != 0, before.Now().esc, before.aheadBuf),
                       before.aheadBuf, 0, Room(prefill, before.aheadBuf))
    ensures fresh(e) && e.Valid() && e.u == u && e.prompt == prompt
    ensures e.Now() == Fed(u, Begun(prefill, before.insertMode, before.discard != 0, before.Now().esc, before.aheadBuf),
                           before.aheadBuf, 0, Room(prefill, before.aheadBuf))
    ensures before.discard == 0 && !e.quiet ==> e.Seen()
  {
    var ahead := before.aheadBuf;
    var n := if |prefill| + |ahead| > BUFFER then BUFFER - |prefill| else |ahead|;
    e := new Editor(prompt, prefill, u, echoTerminator, before.insertMode, before.discard, Escape([], before.escThird, before.escState), ahead[..|ahead| - n]);
    ghost var b := Begun(prefill, before.insertMode, before.discard != 0, before.Now().esc, ahead);
    assert e.Now() == b;
    Feed(e, ahead, n);
  }

  /** Gives the first n bytes of the buffer to a read. */
  method Feed(e: Editor, ahead: seq<ascii>, n: nat)
    requires e.Valid() && n <= |ahead| && FedFits(e.u, e.Now(), ahead, 0, n)
    modifies e, e.inputBuf
    ensures e.Valid() && e.Now() == Fed(e.u, old(e.Now()), ahead, 0, n)
    ensures old(e.Seen()) && !e.quiet ==> e.Seen()
  {
    var i := 0;
    while i < n
      invariant i <= n && e.Valid() && FedFits(e.u, e.Now(), ahead, i, n)
      invariant Fed(e.u, e.Now(), ahead, i, n) == Fed(e.u, old(e.Now()), ahead, 0, n)
      invariant old(e.Seen()) && !e.quiet ==> e.Seen()
    {
      var c := if i < |e.aheadBuf| then e.aheadBuf[i] else ahead[i];
      assert c == AheadAt(ahead, e.Now().ahead, i);
      e.TakeByte(c);
      i := i + 1;
    }
  }

  // ---- Typing ahead is typing ----

  /** With room for all of them the bytes are taken in order, although the buffer is
      filled again meanwhile. */
  lemma {:induction false} FedInOrder(u: Setup, t: Typing, ahead: seq<ascii>, i: nat)
    requires u.Valid() && |t.ahead| <= i <= |ahead|
    ensures Fed(u, t, ahead, i, |ahead|) == TookAll(u, t, ahead[i..])
    ensures FedFits(u, t, ahead, i, |ahead|) <==> EscapesFit(u, t, ahead[i..])
    decreases |ahead| - i
  {
    if i == |ahead| {
      assert ahead[i..] == [];
    } else {
      assert ahead[i..][0] == ahead[i] && ahead[i..][1..] == ahead[i + 1..];
      FedInOrder(u, Took(u, t, ahead[i]), ahead, i + 1);
    }
  }

  lemma {:induction false} TookSwapped(u: Setup, t: Typing, bytes: seq<ascii>)
    requires u.Valid()
    ensures TookAll(u, t, SwappedAll(bytes)) == TookAll(u, t, bytes)
    decreases |bytes|
  {
    if bytes == [] {
    } else {
      assert SwappedAll(bytes)[1..] == SwappedAll(bytes[1..]);
      assert Took(u, t, Swapped(bytes[0])) == Took(u, t, bytes[0]);
      TookSwapped(u, Took(u, t, bytes[0]), bytes[1..]);
    }
  }

  /** Bytes typed after a line was sent, at most 128 and with room for them behind the
      prefilled text, do in the next read what they do when they are typed after it has
      started. What comes after the next line goes out waits in turn. */
  lemma TypedAheadIsTyped(u: Setup, t: Typing, bytes: seq<ascii>, next: Setup, prefill: seq<byte>)
    requires u.Valid() && t.sent.Some? && t.ahead == [] && t.esc.bytes == [] && |bytes| <= AHEAD
    requires next.Valid() && |prefill| + |bytes| <= BUFFER
    ensures var s := TookAll(u, t, bytes);
      && Room(prefill, s.ahead) == |s.ahead| == |bytes|
      && Fed(next, Begun(prefill, t.line.insert, t.quiet, t.esc, s.ahead), s.ahead, 0, |s.ahead|)
           == TookAll(next, Begun(prefill, t.line.insert, t.quiet, t.esc, []), bytes)
  {
    KeptAhead(u, t, bytes);
    var ahead := SwappedAll(bytes);
    assert [] + ahead == ahead;
    var b := Begun(prefill, t.line.insert, t.quiet, t.esc, ahead);
    assert b == Begun(prefill, t.line.insert, t.quiet, t.esc, []);
    FedInOrder(next, b, ahead, 0);
    assert ahead[0..] == ahead;
    TookSwapped(next, b, bytes);
  }

  /** Without that room a byte is lost and another one comes twice: the prefilled text
      leaves one place, two bytes are typed ahead, the first one fills the line, and it is
      the first one again that waits for the read after. */
  lemma TypedAheadLost(u: Setup, prefill: seq<byte>, insert: bool, a: ascii, b: ascii)
    requires u.Valid() && u.maxReadLen == BUFFER && |prefill| == BUFFER - 1 && !u.upperCase
    requires 32 <= a < DEL && !IsTerminator(u.mask, a)
    ensures var t := Fed(u, Begun(prefill, insert, false, NO_ESCAPE, [a, b]), [a, b], 0, Room(prefill, [a, b]));
      t.sent == Some(Sent(prefill + [a], BUFFER - 1, BufferFull)) && t.ahead == [a]
  {
    assert [a, b][..1] == [a];
    var t := Begun(prefill, insert, false, NO_ESCAPE, [a, b]);
    assert t.ahead == [a];
    assert Pressed(t.line, Char(a)).Text() == prefill + [a];
    assert Took(u, t, a).ahead == [a];
  }

  // ---- What an escape sequence leaves behind ----

  /** A sequence that a control character breaks off leaves the escape parser in the middle,
      and its third byte in the buffer. In the next read the right arrow then ends at its
      bracket, is taken for one because of the byte left behind, and its last byte is typed. */
  lemma ArrowTypesLetter(u: Setup, t: Typing, next: Setup, prefill: seq<byte>)
    requires u.Valid() && u.escapes && t.sent.None? && t.esc == NO_ESCAPE
    requires next.Valid() && next.escapes && !IsTerminator(next.mask, RIGHT_ARROW)
    requires |prefill| < next.maxReadLen
    ensures var s := TookAll(u, t, [ESC, 89, RIGHT_ARROW, 1]);
      && s.sent.Some? && s.sent.value.reason == ValidEscape
      && TookAll(next, Begun(prefill, false, false, s.esc, []), [ESC, BRACKET, RIGHT_ARROW])
           == Limited(next, Typing(Line(prefill + [RIGHT_ARROW], [], false), Escape([], RIGHT_ARROW, 0), None, [], true))
  {
    var s3 := Took(u, Took(u, Took(u, t, ESC), 89), RIGHT_ARROW);
    assert s3.esc == Escape([ESC, 89, RIGHT_ARROW], RIGHT_ARROW, 40);
    var s := Took(u, s3, 1);
    FourBytes(u, t, ESC, 89, RIGHT_ARROW, 1);
    assert s.esc == Escape([], RIGHT_ARROW, 40);
    var b := Begun(prefill, false, false, s.esc, []);
    ThreeBytes(next, b, ESC, BRACKET, RIGHT_ARROW);
    var b2 := Took(next, Took(next, b, ESC), BRACKET);
    assert Longer(Took(next, b, ESC).esc, BRACKET).bytes == [ESC, BRACKET];
    assert b2.esc == Escape([], RIGHT_ARROW, 0) && b2.line == b.line && b2.quiet;
  }

  lemma FourBytes(u: Setup, t: Typing, a: ascii, b: ascii, c: ascii, d: ascii)
    requires u.Valid()
    ensures TookAll(u, t, [a, b, c, d]) == Took(u, Took(u, Took(u, Took(u, t, a), b), c), d)
  {
    assert [a, b, c, d][1..] == [b, c, d];
    ThreeBytes(u, Took(u, t, a), b, c, d);
  }
}
