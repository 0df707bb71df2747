/** Which escape sequences dnlogin takes for complete, and what becomes of them. */
module TtySequences {
  import opened Bits
  import opened Wrappers
  import opened TtyEscape
  import opened Tty
  import opened TtySessions

  // ---- The sequences ----

  /** What comes behind the leading bytes in a range. */
  function Behind(s: seq<ascii>, low: ascii, high: ascii): seq<ascii> {
    if s != [] && low <= s[0] <= high then Behind(s[1..], low, high) else s
  }

  /** What may end a sequence behind its parameters and intermediate bytes: a letter, or,
      as the rules fall through, a digit and any character. */
  predicate Closes(s: seq<ascii>) {
    (|s| == 1 && 64 <= s[0]) || (|s| == 2 && s[0] < 64)
  }

  /** The printable characters behind an escape that are a whole sequence: a bracket, its
      parameters 0 to ?, intermediate bytes blank to / and the end; O with intermediate
      bytes and the end; Y with two characters; intermediate bytes, which a ? or ; may
      precede, with one more character; or a single other character. */
  predicate Complete(s: seq<ascii>) {
    if s == [] then false
    else if s[0] == '[' as int then Closes(Behind(Behind(s[1..], 48, 63), 32, 47))
    else if s[0] == 'O' as int then Closes(Behind(s[1..], 32, 47))
    else if s[0] == 'Y' as int then |s| == 3
    else if s[0] == '?' as int || s[0] == ';' as int then |Behind(s[1..], 32, 47)| == 1
    else |Behind(s, 32, 47)| == 1
  }

  // ---- The parser takes exactly these ----

  /** From a state, the parser goes on with every byte but the last. */
  predicate Ends(state: nat, s: seq<ascii>)
    decreases |s|
  {
    if s == [] then false
    else if |s| == 1 then !Rule(state, s[0]).0
    else Rule(state, s[0]).0 && Ends(Rule(state, s[0]).1, s[1..])
  }

  lemma {:induction false} EndsTen(s: seq<ascii>)
    requires AllPrintable(s)
    ensures Ends(10, s) <==> |Behind(s, 32, 47)| == 1
  {
    if s != [] {
      assert Printable(s[0]);
      EndsTen(s[1..]);
      if |s| == 1 { assert s[1..] == []; }
    }
  }

  lemma EndsThirty(s: seq<ascii>)
    requires AllPrintable(s)
    ensures Ends(30, s) <==> |s| == 2
    ensures Ends(40, s) <==> |s| == 1
  {
    if s != [] {
      assert Printable(s[0]);
      if |s| > 1 { assert Printable(s[1]); }
    }
  }

  lemma {:induction false} EndsTwenty(s: seq<ascii>)
    requires AllPrintable(s)
    ensures Ends(20, s) <==> Closes(Behind(s, 32, 47))
  {
    if s != [] {
      assert Printable(s[0]);
      EndsThirty(s[1..]);
      EndsTwenty(s[1..]);
      if |s| == 1 { assert s[1..] == []; }
    }
  }

  lemma {:induction false} EndsFifteen(s: seq<ascii>)
    requires AllPrintable(s)
    ensures Ends(15, s) <==> Closes(Behind(Behind(s, 48, 63), 32, 47))
  {
    if s != [] {
      assert Printable(s[0]);
      EndsTwenty(s[1..]);
      EndsFifteen(s[1..]);
      if |s| == 1 { assert s[1..] == []; }
    }
  }

  lemma EndsExactly(s: seq<ascii>)
    requires AllPrintable(s)
    ensures Ends(0, s) <==> Complete(s)
  {
    if s != [] {
      var r := s[1..];
      assert Printable(s[0]);
      EndsTen(r);
      EndsFifteen(r);
      EndsTwenty(r);
      EndsThirty(r);
      if |s| == 1 { assert r == []; }
    }
  }

  // ---- What becomes of them ----

  /** An arrow key. */
  predicate Arrow(s: seq<ascii>) {
    s == [91, 67] || s == [91, 68]
  }

  /** The third place of the buffer belongs to this sequence. */
  predicate Fresh(e: Escape) {
    && e.bytes != [] && e.bytes[0] == ESC
    && (|e.bytes| > 2 ==> e.third == e.bytes[2])
  }

  predicate ArrowBytes(b: seq<byte>) {
    |b| >= 2 && b[1] == BRACKET && (|b| == 2 || b[2] == RIGHT_ARROW || b[2] == LEFT_ARROW)
  }

  lemma LongerIs(e: Escape, c: byte)
    requires Fresh(e)
    ensures var l := Longer(e, c);
      Fresh(l) && l.bytes == e.bytes + [c] && (AnyArrow(l) ==> ArrowBytes(l.bytes))
  {
  }

  lemma ByteTaken(u: Setup, t: Typing, c: ascii)
    requires u.Valid() && t.sent.None? && Fresh(t.esc) && State(t.esc.state) && Printable(c)
    ensures var n := Took(u, t, c);
      if Rule(t.esc.state, c).0
      then n == t.(esc := Longer(t.esc, c))
      else !ArrowBytes(t.esc.bytes + [c]) ==>
             && n.line == t.line && n.esc.state == 0
             && n.sent == Some(Sent(t.line.Text() + (t.esc.bytes + [c]), |t.line.Text()|, ValidEscape))
  {
    LongerIs(t.esc, c);
  }

  lemma {:induction false} RestTaken(u: Setup, t: Typing, s: seq<ascii>)
    requires u.Valid() && t.sent.None? && Fresh(t.esc) && State(t.esc.state) && AllPrintable(s) && Ends(t.esc.state, s)
    requires !ArrowBytes(t.esc.bytes + s)
    ensures var n := TookAll(u, t, s);
      && n.line == t.line && n.esc.state == 0
      && n.sent == Some(Sent(t.line.Text() + (t.esc.bytes + s), |t.line.Text()|, ValidEscape))
    decreases |s|
  {
    assert Printable(s[0]);
    ByteTaken(u, t, s[0]);
    assert [s[0]] + s[1..] == s;
    assert t.esc.bytes + [s[0]] + s[1..] == t.esc.bytes + s;
    if |s| == 1 {
      assert s == [s[0]] && s[1..] == [];
    } else {
      LongerIs(t.esc, s[0]);
      RestTaken(u, Took(u, t, s[0]), s[1..]);
    }
  }

  /** A whole sequence other than an arrow key goes to the host behind the text, the
      text's end in the place of the terminator, and the line stays as it is. */
  lemma SequenceSent(u: Setup, t: Typing, s: seq<ascii>)
    requires u.Valid() && u.escapes && Open(t) && t.esc.state == 0
    requires AllPrintable(s) && Complete(s) && !Arrow(s)
    ensures var n, text := TookAll(u, t, [27] + s), t.line.Text();
      n.line == t.line && n.sent == Some(Sent(text + [27] + s, |text|, ValidEscape))
  {
    EndsExactly(s);
    EscapeBegins(u, t, s);
    var b := t.(esc := t.esc.(bytes := [ESC]));
    NoArrow(s);
    RestTaken(u, b, s);
    assert t.line.Text() + ([ESC] + s) == t.line.Text() + [27] + s;
  }

  lemma EscapeBegins(u: Setup, t: Typing, s: seq<ascii>)
    requires u.Valid() && u.escapes && Open(t)
    ensures TookAll(u, t, [27] + s) == TookAll(u, t.(esc := t.esc.(bytes := [ESC])), s)
  {
    assert ([27] + s)[1..] == s;
  }

  lemma NoArrow(s: seq<ascii>)
    requires AllPrintable(s) && Complete(s) && !Arrow(s)
    ensures !ArrowBytes([ESC] + s)
  {
    EndsExactly(s);
    var b: seq<byte> := [ESC] + s;
    assert b[1] == s[0];
    if |s| > 1 { assert b[2] == s[1]; }
    if |s| == 2 { assert s == [s[0], s[1]]; }
  }

  /** As long as it is not complete a sequence is kept, and nothing else happens. */
  lemma SequenceKept(u: Setup, t: Typing, s: seq<ascii>)
    requires u.Valid() && u.escapes && Open(t) && t.esc.state == 0 && AllPrintable(s)
    requires forall k :: 0 < k <= |s| ==> !Complete(s[..k])
    ensures var n := TookAll(u, t, [27] + s);
      n.line == t.line && n.sent.None? && n.esc.bytes == [27] + s
  {
    EscapeBegins(u, t, s);
    forall k | 0 < k <= |s| ensures !Ends(0, s[..k]) { EndsExactly(s[..k]); }
    RestKept(u, t.(esc := t.esc.(bytes := [ESC])), s);
  }

  lemma {:induction false} RestKept(u: Setup, t: Typing, s: seq<ascii>)
    requires u.Valid() && t.sent.None? && Fresh(t.esc) && State(t.esc.state) && AllPrintable(s)
    requires forall k :: 0 < k <= |s| ==> !Ends(t.esc.state, s[..k])
    ensures var n := TookAll(u, t, s);
      n.line == t.line && n.sent.None? && n.esc.bytes == t.esc.bytes + s
    decreases |s|
  {
    if s != [] {
      var r := s[1..];
      assert s[..1] == [s[0]] && Printable(s[0]) && !Ends(t.esc.state, s[..1]);
      ByteTaken(u, t, s[0]);
      LongerIs(t.esc, s[0]);
      forall k | 0 < k <= |r| ensures !Ends(Rule(t.esc.state, s[0]).1, r[..k]) {
        assert s[..k + 1][1..] == r[..k];
        assert !Ends(t.esc.state, s[..k + 1]);
      }
      RestKept(u, Took(u, t, s[0]), r);
      assert t.esc.bytes + [s[0]] + r == t.esc.bytes + s;
    }
  }
}
