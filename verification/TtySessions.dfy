/** What a user gets for what is typed: whole reads, from the bytes of the keyboard to the
    text that is sent. */
module TtySessions {
  import opened Bits
  import opened Wrappers
  import opened TtyEscape
  import opened Tty

  predicate Printable(c: ascii) { 32 <= c < 127 }

  predicate AllPrintable(s: seq<ascii>) {
    forall i :: 0 <= i < |s| ==> Printable(s[i])
  }

  /** A mask with which return ends the read, and neither characters nor the keys that edit
      the line do. */
  ghost predicate Edits(u: Setup) {
    && u.Valid() && IsTerminator(u.mask, 13)
    && (forall c: ascii :: Typeable(u, c))
    && !IsTerminator(u.mask, 1) && !IsTerminator(u.mask, 5) && !IsTerminator(u.mask, 8)
    && !IsTerminator(u.mask, 21) && !IsTerminator(u.mask, 127)
  }

  predicate Typeable(u: Setup, c: ascii)
    requires u.Valid()
  {
    Printable(c) ==> !IsTerminator(u.mask, c)
  }

  /** The default mask is of that kind; it ignores control-I, R, W and the one of 29, and
      control-X ends the read. */
  lemma DefaultEdits(u: Setup)
    requires u.Valid() && u.mask == DEFAULT_MASK
    ensures Edits(u) && IsTerminator(u.mask, 24) && IsTerminator(u.mask, 25)
    ensures !IsTerminator(u.mask, 9) && !IsTerminator(u.mask, 18) && !IsTerminator(u.mask, 23) && !IsTerminator(u.mask, 29)
  {
    forall c: ascii ensures IsTerminator(u.mask, c) <==> c < 32 && c !in {1, 5, 8, 9, 18, 21, 23, 29} {
      DefaultTerminators(c);
    }
  }

  /** A character as it is stored: a capital if the host asked for that. */
  function Stored(u: Setup, c: byte): byte {
    if u.upperCase && 'a' as int <= c <= 'z' as int then c - 'a' as int + 'A' as int else c
  }

  function AllStored(u: Setup, s: seq<ascii>): (r: seq<byte>)
    ensures |r| == |s| && forall i :: 0 <= i < |s| ==> r[i] == Stored(u, s[i])
  {
    seq(|s|, i requires 0 <= i < |s| => Stored(u, s[i]))
  }

  /** A read that starts on an empty line. */
  function Empty(insert: bool): Typing {
    Typing(Line([], [], insert), NO_ESCAPE, None, [], false)
  }

  /** The text has been sent. */
  predicate Sends(t: Typing, text: seq<byte>) {
    t.sent.Some? && t.sent.value.Text() == text
  }

  // ---- Byte by byte ----

  lemma {:induction false} TookBoth(u: Setup, t: Typing, a: seq<ascii>, b: seq<ascii>)
    requires u.Valid()
    ensures TookAll(u, t, a + b) == TookAll(u, TookAll(u, t, a), b)
    decreases |a|
  {
    if a == [] {
      assert a + b == b;
    } else {
      assert (a + b)[1..] == a[1..] + b;
      TookBoth(u, Took(u, t, a[0]), a[1..], b);
    }
  }

  lemma TookOne(u: Setup, t: Typing, a: ascii)
    requires u.Valid()
    ensures TookAll(u, t, [a]) == Took(u, t, a)
  {
    assert [a][1..] == [];
    assert TookAll(u, Took(u, t, a), []) == Took(u, t, a);
  }

  lemma TookTwo(u: Setup, t: Typing, a: ascii, b: ascii)
    requires u.Valid()
    ensures TookAll(u, t, [a, b]) == Took(u, Took(u, t, a), b)
  {
    assert [a] + [b] == [a, b];
    TookBoth(u, t, [a], [b]);
    TookOne(u, t, a);
    TookOne(u, Took(u, t, a), b);
  }

  /** Nothing is sent yet, and no escape sequence has begun. */
  predicate Open(t: Typing) { t.sent.None? && t.esc.bytes == [] }

  /** A character goes in at the cursor, before what stands there or instead of it. */
  lemma CharTaken(u: Setup, t: Typing, c: ascii)
    requires Edits(u) && Open(t) && Printable(c)
    ensures var l := t.line;
      var now := l.(left := l.left + [Stored(u, c)],
                    right := if l.insert || l.right == [] then l.right else l.right[1..]);
      if |now.Text()| < u.maxReadLen then Took(u, t, c) == t.(line := now)
      else Sends(Took(u, t, c), now.Text())
  {
    assert Typeable(u, c);
  }

  /** With more text before the cursor. */
  function Grown(t: Typing, more: seq<byte>): Typing {
    t.(line := t.line.(left := t.line.left + more))
  }

  lemma GrownTwice(t: Typing, a: seq<byte>, b: seq<byte>)
    ensures Grown(Grown(t, a), b) == Grown(t, a + b)
    ensures Grown(t, []) == t
  {
    assert t.line.left + a + b == t.line.left + (a + b);
    assert t.line.left + [] == t.line.left;
  }

  lemma AtEnd(u: Setup, t: Typing, s: seq<ascii>)
    requires Edits(u) && Open(t) && s != [] && Printable(s[0]) && t.line.right == [] && |t.line.left| + 1 < u.maxReadLen
    ensures TookAll(u, t, s) == TookAll(u, Grown(t, [Stored(u, s[0])]), s[1..])
  {
    CharTaken(u, t, s[0]);
  }

  lemma StoredFirst(u: Setup, s: seq<ascii>)
    requires s != []
    ensures AllStored(u, s) == [Stored(u, s[0])] + AllStored(u, s[1..])
  {
  }

  /** Text typed at the end of the line. */
  lemma {:induction false} TextTaken(u: Setup, t: Typing, s: seq<ascii>)
    requires Edits(u) && Open(t) && AllPrintable(s) && t.line.right == []
    requires |t.line.left| + |s| < u.maxReadLen
    ensures TookAll(u, t, s) == Grown(t, AllStored(u, s))
    decreases |s|
  {
    if s == [] {
      GrownTwice(t, [], []);
    } else {
      AtEnd(u, t, s);
      TextTaken(u, Grown(t, [Stored(u, s[0])]), s[1..]);
      StoredFirst(u, s);
      GrownTwice(t, [Stored(u, s[0])], AllStored(u, s[1..]));
    }
  }

  /** Once sent, the rest does not change it. */
  lemma {:induction false} StaysSent(u: Setup, t: Typing, bytes: seq<ascii>)
    requires u.Valid() && t.sent.Some?
    ensures TookAll(u, t, bytes).sent == t.sent
    decreases |bytes|
  {
    if bytes == [] {
    } else {
      StaysSent(u, Took(u, t, bytes[0]), bytes[1..]);
    }
  }

  /** Return sends what is there. */
  lemma ReturnSends(u: Setup, t: Typing)
    requires Edits(u) && (t.sent.Some? || Open(t))
    ensures Took(u, t, 13).sent == if t.sent.Some? then t.sent
            else Some(Sent(t.line.Text() + [13], |t.line.Text()|, Terminated))
  {
  }

  /** A character and return. */
  lemma CharAndReturn(u: Setup, t: Typing, c: ascii)
    requires Edits(u) && Open(t) && Printable(c)
    ensures var l := t.line;
      var now := l.(left := l.left + [Stored(u, c)],
                    right := if l.insert || l.right == [] then l.right else l.right[1..]);
      Sends(TookAll(u, t, [c, 13]), now.Text())
  {
    TookTwo(u, t, c, 13);
    CharTaken(u, t, c);
    ReturnSends(u, Took(u, t, c));
  }

  lemma AfterText(u: Setup, insert: bool, s: seq<ascii>, rest: seq<ascii>)
    requires Edits(u) && AllPrintable(s) && |s| < u.maxReadLen
    ensures TookAll(u, Empty(insert), s + rest)
         == TookAll(u, Empty(insert).(line := Line(AllStored(u, s), [], insert)), rest)
  {
    TookBoth(u, Empty(insert), s, rest);
    TextTaken(u, Empty(insert), s);
    assert [] + AllStored(u, s) == AllStored(u, s);
  }

  // ---- Whole reads ----

  /** A text and return sends the text, with line feed for return just the same; the byte
      behind it is a return in both cases. */
  lemma TextSent(u: Setup, insert: bool, s: seq<ascii>, end: ascii)
    requires Edits(u) && AllPrintable(s) && |s| < u.maxReadLen && (end == 13 || end == 10)
    ensures TookAll(u, Empty(insert), s + [end]).sent == Some(Sent(AllStored(u, s) + [13], |s|, Terminated))
  {
    AfterText(u, insert, s, [end]);
    var t := Empty(insert).(line := Line(AllStored(u, s), [], insert));
    TookOne(u, t, end);
    assert t.line.Text() == AllStored(u, s);
  }

  /** Control-C ends a read as control-Y, and control-X as itself, if they end one. */
  lemma ControlSent(u: Setup, insert: bool, s: seq<ascii>, end: ascii)
    requires Edits(u) && AllPrintable(s) && |s| < u.maxReadLen
    requires (end == 3 && IsTerminator(u.mask, 25)) || (end == 24 && IsTerminator(u.mask, 24))
    ensures TookAll(u, Empty(insert), s + [end]).sent
         == Some(Sent(AllStored(u, s) + [if end == 3 then 25 else 24], |s|, Terminated))
  {
    AfterText(u, insert, s, [end]);
    var t := Empty(insert).(line := Line(AllStored(u, s), [], insert));
    TookOne(u, t, end);
    assert t.line.Text() == AllStored(u, s);
  }

  /** A line with the cursor at its end. */
  function Full(u: Setup, insert: bool, s: seq<ascii>): Typing {
    Empty(insert).(line := Line(AllStored(u, s), [], insert))
  }

  lemma HomeTaken(u: Setup, t: Typing)
    requires Edits(u) && Open(t) && |t.line.Text()| < u.maxReadLen
    ensures TookAll(u, t, [8]) == t.(line := t.line.(left := [], right := t.line.left + t.line.right))
  {
    TookOne(u, t, 8);
  }

  lemma EndTaken(u: Setup, t: Typing)
    requires Edits(u) && Open(t) && |t.line.Text()| < u.maxReadLen
    ensures TookAll(u, t, [5]) == t.(line := t.line.(left := t.line.left + t.line.right, right := []))
  {
    TookOne(u, t, 5);
  }

  lemma ToggleTaken(u: Setup, t: Typing)
    requires Edits(u) && Open(t) && |t.line.Text()| < u.maxReadLen
    ensures TookAll(u, t, [1]) == t.(line := t.line.(insert := !t.line.insert))
  {
    TookOne(u, t, 1);
  }

  lemma KillTaken(u: Setup, t: Typing, kill: ascii)
    requires Edits(u) && Open(t) && (kill == 21 || (kill == 24 && !IsTerminator(u.mask, 24)))
    ensures TookAll(u, t, [kill]) == t.(line := t.line.(left := [], right := []))
  {
    TookOne(u, t, kill);
  }

  /** A key behind a text, and what follows it. */
  lemma KeyAfterText(u: Setup, insert: bool, s: seq<ascii>, key: ascii, rest: seq<ascii>, t: Typing)
    requires Edits(u) && AllPrintable(s) && |s| < u.maxReadLen && TookAll(u, Full(u, insert, s), [key]) == t
    ensures TookAll(u, Empty(insert), s + ([key] + rest)) == TookAll(u, t, rest)
  {
    AfterText(u, insert, s, [key] + rest);
    TookBoth(u, Full(u, insert, s), [key], rest);
  }

  /** Control-H goes to the start of the line: what is typed then stands before the text, or
      instead of its first character. */
  lemma StartOfLine(u: Setup, insert: bool, s: seq<ascii>, c: ascii)
    requires Edits(u) && AllPrintable(s) && |s| < u.maxReadLen && Printable(c)
    ensures Sends(TookAll(u, Empty(insert), s + ([8] + [c, 13])),
                  [Stored(u, c)] + (if insert || s == [] then AllStored(u, s) else AllStored(u, s)[1..]))
  {
    var text := AllStored(u, s);
    var h := Empty(insert).(line := Line([], text, insert));
    assert text + [] == text;
    HomeTaken(u, Full(u, insert, s));
    KeyAfterText(u, insert, s, 8, [c, 13], h);
    CharAndReturn(u, h, c);
    assert [] + [Stored(u, c)] == [Stored(u, c)];
  }

  /** Control-E goes to the end: what is typed then stands behind the text. */
  lemma EndOfLine(u: Setup, insert: bool, s: seq<ascii>, c: ascii)
    requires Edits(u) && AllPrintable(s) && |s| < u.maxReadLen && Printable(c)
    ensures Sends(TookAll(u, Empty(insert), s + ([8] + ([5] + [c, 13]))), AllStored(u, s) + [Stored(u, c)])
  {
    var text, t := AllStored(u, s), Full(u, insert, s);
    var h := Empty(insert).(line := Line([], text, insert));
    assert text + [] == text && [] + text == text;
    HomeTaken(u, t);
    KeyAfterText(u, insert, s, 8, [5] + [c, 13], h);
    EndTaken(u, h);
    TookBoth(u, h, [5], [c, 13]);
    CharAndReturn(u, t, c);
    assert text + [Stored(u, c)] + [] == text + [Stored(u, c)];
  }

  /** Control-U, and control-X where it does not end the read, throw the text away. */
  lemma LineKilled(u: Setup, insert: bool, s: seq<ascii>, kill: ascii, c: ascii)
    requires Edits(u) && AllPrintable(s) && |s| < u.maxReadLen && Printable(c)
    requires kill == 21 || (kill == 24 && !IsTerminator(u.mask, 24))
    ensures Sends(TookAll(u, Empty(insert), s + ([kill] + [c, 13])), [Stored(u, c)])
  {
    var k := Empty(insert);
    KillTaken(u, Full(u, insert, s), kill);
    KeyAfterText(u, insert, s, kill, [c, 13], k);
    CharAndReturn(u, k, c);
    assert [] + [Stored(u, c)] + [] == [Stored(u, c)];
  }

  /** Control-A decides between inserting and overwriting. */
  lemma ModeToggled(u: Setup, insert: bool, s: seq<ascii>, c: ascii)
    requires Edits(u) && AllPrintable(s) && |s| < u.maxReadLen && Printable(c)
    ensures Sends(TookAll(u, Empty(insert), s + ([1] + ([8] + [c, 13]))),
                  [Stored(u, c)] + (if !insert || s == [] then AllStored(u, s) else AllStored(u, s)[1..]))
  {
    var text := AllStored(u, s);
    var m, h := Empty(insert).(line := Line(text, [], !insert)), Empty(insert).(line := Line([], text, !insert));
    assert text + [] == text;
    ToggleTaken(u, Full(u, insert, s));
    KeyAfterText(u, insert, s, 1, [8] + [c, 13], m);
    HomeTaken(u, m);
    TookBoth(u, m, [8], [c, 13]);
    CharAndReturn(u, h, c);
    assert [] + [Stored(u, c)] == [Stored(u, c)];
  }

  lemma DeleteTaken(u: Setup, t: Typing)
    requires Edits(u) && Open(t) && t.line.right == [] && |t.line.left| < u.maxReadLen
    ensures Took(u, t, 127)
         == t.(line := t.line.(left := if t.line.left == [] then [] else t.line.left[..|t.line.left| - 1]))
  {
  }

  /** DEL takes the last character away. */
  lemma LastDeleted(u: Setup, insert: bool, s: seq<ascii>)
    requires Edits(u) && AllPrintable(s) && |s| < u.maxReadLen
    ensures Sends(TookAll(u, Empty(insert), s + [127, 13]), AllStored(u, if s == [] then s else s[..|s| - 1]))
  {
    AfterText(u, insert, s, [127, 13]);
    var text, rest := AllStored(u, s), AllStored(u, if s == [] then s else s[..|s| - 1]);
    var t, d := Empty(insert).(line := Line(text, [], insert)), Empty(insert).(line := Line(rest, [], insert));
    DeleteTaken(u, t);
    assert rest == if s == [] then [] else text[..|s| - 1];
    TookTwo(u, t, 127, 13);
    ReturnSends(u, d);
    assert rest + [] == rest;
  }

  /** Control-I, R and W, the one of 29, and any other control character that has no meaning
      and does not end the read, leave the text alone. */
  lemma Ignored(u: Setup, insert: bool, s: seq<ascii>, k: ascii)
    requires Edits(u) && AllPrintable(s) && |s| < u.maxReadLen && !IsTerminator(u.mask, k) && !u.escapes
    requires k < 32 && k !in {1, 3, 5, 8, 10, 13, 15, 21, 24}
    ensures var t := TookAll(u, Empty(insert), s + [k, 13]); Sends(t, AllStored(u, s)) && !t.quiet
  {
    AfterText(u, insert, s, [k, 13]);
    var t := Empty(insert).(line := Line(AllStored(u, s), [], insert));
    TookTwo(u, t, k, 13);
    assert Took(u, t, k) == t;
    ReturnSends(u, t);
    assert t.line.Text() == AllStored(u, s);
  }

  /** Control-O, where it does not end the read, does nothing but suppress output. */
  lemma OutputSuppressed(u: Setup, insert: bool, s: seq<ascii>)
    requires Edits(u) && AllPrintable(s) && |s| < u.maxReadLen && !IsTerminator(u.mask, 15)
    ensures var t := TookAll(u, Empty(insert), s + [15, 13]); Sends(t, AllStored(u, s)) && t.quiet
  {
    AfterText(u, insert, s, [15, 13]);
    var t := Full(u, insert, s);
    TookTwo(u, t, 15, 13);
    assert Took(u, t, 15) == t.(quiet := true);
    ReturnSends(u, t.(quiet := true));
    assert t.line.Text() == AllStored(u, s);
  }

  lemma LeftTaken(u: Setup, t: Typing, text: seq<byte>)
    requires Edits(u) && u.escapes && Open(t) && t.esc.state == 0 && text != [] && t.line == Line(text, [], t.line.insert)
    ensures TookAll(u, t, [27, 91, 68])
         == t.(line := Line(text[..|text| - 1], [text[|text| - 1]], t.line.insert), esc := Escape([], 68, 0))
  {
    ArrowKey(u, t, false);
    assert [text[|text| - 1]] + [] == [text[|text| - 1]];
  }

  lemma RightTaken(u: Setup, t: Typing, text: seq<byte>)
    requires Edits(u) && u.escapes && Open(t) && t.esc.state == 0 && text != []
    requires t.line == Line(text[..|text| - 1], [text[|text| - 1]], t.line.insert)
    ensures TookAll(u, t, [27, 91, 67]) == t.(line := Line(text, [], t.line.insert), esc := Escape([], 67, 0))
  {
    ArrowKey(u, t, true);
    assert text[..|text| - 1] + [text[|text| - 1]] == text;
  }

  /** The left arrow goes back by one character: what is typed then stands before the last
      one, or instead of it. */
  lemma LeftArrowTyped(u: Setup, insert: bool, s: seq<ascii>, c: ascii)
    requires Edits(u) && u.escapes && AllPrintable(s) && 0 < |s| < u.maxReadLen && Printable(c)
    ensures var text := AllStored(u, s);
      Sends(TookAll(u, Empty(insert), s + ([27, 91, 68] + [c, 13])),
            text[..|s| - 1] + [Stored(u, c)] + (if insert then [text[|s| - 1]] else []))
  {
    var text := AllStored(u, s);
    var t := Empty(insert).(line := Line(text, [], insert));
    AfterText(u, insert, s, [27, 91, 68] + [c, 13]);
    TookBoth(u, t, [27, 91, 68], [c, 13]);
    LeftTaken(u, t, text);
    CharAndReturn(u, TookAll(u, t, [27, 91, 68]), c);
  }

  /** The right arrow goes forth again. */
  lemma RightArrowTyped(u: Setup, insert: bool, s: seq<ascii>, c: ascii)
    requires Edits(u) && u.escapes && AllPrintable(s) && 0 < |s| < u.maxReadLen && Printable(c)
    ensures Sends(TookAll(u, Empty(insert), s + ([27, 91, 68] + ([27, 91, 67] + [c, 13]))), AllStored(u, s) + [Stored(u, c)])
  {
    var text := AllStored(u, s);
    var t := Empty(insert).(line := Line(text, [], insert));
    AfterText(u, insert, s, [27, 91, 68] + ([27, 91, 67] + [c, 13]));
    TookBoth(u, t, [27, 91, 68], [27, 91, 67] + [c, 13]);
    LeftTaken(u, t, text);
    var l := TookAll(u, t, [27, 91, 68]);
    TookBoth(u, l, [27, 91, 67], [c, 13]);
    RightTaken(u, l, text);
    CharAndReturn(u, TookAll(u, l, [27, 91, 67]), c);
  }
}
