/**
 What the keys of the keyboard type: the rows of the two scan-code tables, the laws of shift and caps lock, and that any
 text that the keyboard has can be typed.
 */
module Typing {
  import opened Words
  import opened Libc
  import opened Commands
  import opened Keyboard

  // ----- the rows of the keyboard

  /** One row of the two tables: the codes from `start` on, and what they type plain and with shift. */
  ghost predicate Row(start: nat, plain: string, shifted: string) {
    |plain| == |shifted| && forall i: nat :: i < |plain| ==> Key(start + i) == (plain[i], shifted[i])
  }

  lemma DigitRow()
    ensures Row(0x02, "1234567890-=", "!@#$%^&*()_+")
  {
  }

  lemma TopRow()
    ensures Row(0x10, "qwertyuiop[]", "QWERTYUIOP{}")
  {
  }

  lemma HomeRow()
    ensures Row(0x1E, "asdfghjkl;'`", "ASDFGHJKL:\"~")
  {
  }

  lemma BottomRow()
    ensures Row(0x2B, "\\zxcvbnm,./", "|ZXCVBNM<>?")
  {
  }

  lemma TabAndSpace()
    ensures Key(0x0F) == ('\t', '\t') && Key(0x39) == (' ', ' ')
  {
  }

  /** Every other code types nothing. */
  lemma OtherCodes(scan: nat, shift: bool, caps: bool)
    requires !(0x02 <= scan <= 0x0D || scan == 0x0F || 0x10 <= scan <= 0x1B || 0x1E <= scan <= 0x29 || 0x2B <= scan <= 0x35 || scan == 0x39)
    ensures Typed(scan, shift, caps) == None
  {
  }

  // ----- shift and caps lock

  /** On a letter shift and caps lock cancel each other; exactly one of them gives the capital. */
  lemma LetterCase(scan: nat)
    requires 'a' <= Key(scan).0 <= 'z'
    ensures Typed(scan, false, false) == Typed(scan, true, true) == Some(Key(scan).0)
    ensures Typed(scan, true, false) == Typed(scan, false, true) == Some(((Key(scan).0 as int) - 32) as char)
  {
    CapitalIsShifted(scan);
  }

  /** Caps lock changes no other key. */
  lemma CapsIsForLetters(scan: nat, shift: bool)
    requires !('a' <= Key(scan).0 <= 'z')
    ensures Typed(scan, shift, true) == Typed(scan, shift, false)
  {
  }

  /** The keys that do not type, by their codes. */
  lemma ControlCodes(e: Editor)
    ensures Edit(e, 0x2A) == e.(shift := true) == Edit(e, 0x36)
    ensures Edit(e, 0xAA) == e.(shift := false) == Edit(e, 0xB6)
    ensures Edit(e, 0x3A) == e.(caps := !e.caps)
    ensures e.line != [] ==> Edit(e, 0x0E) == e.(line := e.line[..|e.line| - 1])
    ensures e.line == [] ==> Edit(e, 0x0E) == e
    ensures Edit(e, 0x1C) == e.(line := [])
    ensures Lines(e, [0x1C]) == [e.line]
  {
    assert [0x1C][1..] == [];
  }

  // ----- typing a text

  function IndexIn(s: string, c: char): (i: nat)
    requires c in s
    ensures i < |s| && s[i] == c
  {
    if s[0] == c then 0 else 1 + IndexIn(s[1..], c)
  }

  /** The key for a character, and whether shift must be held. */
  datatype Stroke = Stroke(scan: nat, shift: bool)

  /** The character at one place of a row that is found there. */
  function InRow(start: nat, plain: string, shifted: string, c: char): Option<Stroke> {
    if c in plain then Some(Stroke(start + IndexIn(plain, c), false))
    else if c in shifted then Some(Stroke(start + IndexIn(shifted, c), true))
    else None
  }

  function StrokeOf(c: char): Option<Stroke> {
    if c == ' ' then Some(Stroke(0x39, false)) else
      match InRow(0x02, "1234567890-=", "!@#$%^&*()_+", c) case Some(k) => Some(k) case None =>
      match InRow(0x10, "qwertyuiop[]", "QWERTYUIOP{}", c) case Some(k) => Some(k) case None =>
      match InRow(0x1E, "asdfghjkl;'`", "ASDFGHJKL:\"~", c) case Some(k) => Some(k) case None =>
      InRow(0x2B, "\\zxcvbnm,./", "|ZXCVBNM<>?", c)
  }

  /** None of the codes from `start` on is a release or a key that does not type. */
  predicate NoControls(start: nat, n: nat) {
    && start + n <= 0x80
    && !(start <= LEFT_SHIFT < start + n) && !(start <= RIGHT_SHIFT < start + n) && !(start <= CAPS_LOCK < start + n)
    && !(start <= BACKSPACE < start + n) && !(start <= ENTER < start + n)
  }

  lemma RowTypes(start: nat, plain: string, shifted: string, c: char)
    requires Row(start, plain, shifted) && InRow(start, plain, shifted, c).Some?
    requires NUL !in plain && NoControls(start, |plain|)
    ensures var k := InRow(start, plain, shifted, c).value; k.scan < 0x80 && Typed(k.scan, k.shift, false) == Some(c)
  {
    var k := InRow(start, plain, shifted, c).value;
    var i: nat := k.scan - start;
    assert Key(start + i) == (plain[i], shifted[i]) && plain[i] in plain;
    KeyTypes(k.scan, k.shift, plain[i], shifted[i]);
  }

  lemma KeyTypes(scan: nat, shift: bool, plain: char, shifted: char)
    requires Key(scan) == (plain, shifted) && plain != NUL && scan < 0x80
    requires scan !in {LEFT_SHIFT, RIGHT_SHIFT, CAPS_LOCK, BACKSPACE, ENTER}
    ensures Typed(scan, shift, false) == Some(if shift then shifted else plain)
  {
  }

  lemma DigitTypes(c: char)
    requires InRow(0x02, "1234567890-=", "!@#$%^&*()_+", c).Some?
    ensures var k := InRow(0x02, "1234567890-=", "!@#$%^&*()_+", c).value; k.scan < 0x80 && Typed(k.scan, k.shift, false) == Some(c)
  {
    DigitRow();
    RowTypes(0x02, "1234567890-=", "!@#$%^&*()_+", c);
  }

  lemma TopTypes(c: char)
    requires InRow(0x10, "qwertyuiop[]", "QWERTYUIOP{}", c).Some?
    ensures var k := InRow(0x10, "qwertyuiop[]", "QWERTYUIOP{}", c).value; k.scan < 0x80 && Typed(k.scan, k.shift, false) == Some(c)
  {
    TopRow();
    RowTypes(0x10, "qwertyuiop[]", "QWERTYUIOP{}", c);
  }

  lemma HomeTypes(c: char)
    requires InRow(0x1E, "asdfghjkl;'`", "ASDFGHJKL:\"~", c).Some?
    ensures var k := InRow(0x1E, "asdfghjkl;'`", "ASDFGHJKL:\"~", c).value; k.scan < 0x80 && Typed(k.scan, k.shift, false) == Some(c)
  {
    HomeRow();
    RowTypes(0x1E, "asdfghjkl;'`", "ASDFGHJKL:\"~", c);
  }

  lemma BottomTypes(c: char)
    requires InRow(0x2B, "\\zxcvbnm,./", "|ZXCVBNM<>?", c).Some?
    ensures var k := InRow(0x2B, "\\zxcvbnm,./", "|ZXCVBNM<>?", c).value; k.scan < 0x80 && Typed(k.scan, k.shift, false) == Some(c)
  {
    BottomRow();
    RowTypes(0x2B, "\\zxcvbnm,./", "|ZXCVBNM<>?", c);
  }

  /** The key found for a character types it. */
  lemma StrokeTypes(c: char)
    requires StrokeOf(c).Some?
    ensures var k := StrokeOf(c).value; k.scan < 0x80 && Typed(k.scan, k.shift, false) == Some(c)
  {
    if c != ' ' {
      if InRow(0x02, "1234567890-=", "!@#$%^&*()_+", c).Some? {
        DigitTypes(c);
      } else if InRow(0x10, "qwertyuiop[]", "QWERTYUIOP{}", c).Some? {
        TopTypes(c);
      } else if InRow(0x1E, "asdfghjkl;'`", "ASDFGHJKL:\"~", c).Some? {
        HomeTypes(c);
      } else {
        BottomTypes(c);
      }
    }
  }

  /** The scan codes for a key, with shift pressed before and released after it if it must be held. */
  function Codes(k: Stroke): seq<nat> {
    if k.shift then [0x2A] + [k.scan] + [0xAA] else [k.scan]
  }

  function Strokes(text: string): seq<nat>
    requires forall c :: c in text ==> StrokeOf(c).Some?
  {
    if text == [] then [] else Codes(StrokeOf(text[0]).value) + Strokes(text[1..])
  }

  lemma {:induction false} EditJoined(e: Editor, a: seq<nat>, b: seq<nat>)
    ensures EditAll(e, a + b) == EditAll(EditAll(e, a), b)
    ensures Lines(e, a + b) == Lines(e, a) + Lines(EditAll(e, a), b)
    decreases a
  {
    if a == [] {
      assert a + b == b;
    } else {
      assert (a + b)[0] == a[0] && (a + b)[1..] == a[1..] + b;
      EditJoined(Edit(e, a[0]), a[1..], b);
    }
  }

  lemma {:induction false} EditOne(e: Editor, scan: nat)
    ensures EditAll(e, [scan]) == Edit(e, scan)
    ensures Lines(e, [scan]) == if scan == 0x1C then [e.line] else []
  {
    assert [scan][1..] == [];
  }

  lemma {:induction false} OneStroke(line: string, k: Stroke, c: char)
    requires k.scan < 0x80 && Typed(k.scan, k.shift, false) == Some(c)
    ensures EditAll(Editor(line, false, false), Codes(k)) == Editor(line + [c], false, false)
    ensures Lines(Editor(line, false, false), Codes(k)) == []
  {
    var e := Editor(line, k.shift, false);
    EditOne(e, k.scan);
    assert Edit(e, k.scan) == Editor(line + [c], k.shift, false);
    if k.shift {
      var start, typed := Editor(line, false, false), Editor(line + [c], true, false);
      EditOne(start, 0x2A);
      EditOne(typed, 0xAA);
      EditJoined(start, [0x2A], [k.scan]);
      EditJoined(start, [0x2A] + [k.scan], [0xAA]);
    }
  }

  /** Typing a text puts it behind what is on the line. */
  lemma {:induction false} TypeText(line: string, text: string)
    requires forall c :: c in text ==> StrokeOf(c).Some?
    ensures EditAll(Editor(line, false, false), Strokes(text)) == Editor(line + text, false, false)
    ensures Lines(Editor(line, false, false), Strokes(text)) == []
    decreases text
  {
    if text == [] {
      assert line + text == line;
    } else {
      var k := StrokeOf(text[0]).value;
      StrokeTypes(text[0]);
      TypeText(line + [text[0]], text[1..]);
      StrokeAndRest(line, k, text[0], Strokes(text[1..]), text[1..]);
      assert [text[0]] + text[1..] == text;
    }
  }

  lemma {:induction false} StrokeAndRest(line: string, k: Stroke, c: char, rest: seq<nat>, text: string)
    requires k.scan < 0x80 && Typed(k.scan, k.shift, false) == Some(c)
    requires EditAll(Editor(line + [c], false, false), rest) == Editor(line + [c] + text, false, false)
    requires Lines(Editor(line + [c], false, false), rest) == []
    ensures EditAll(Editor(line, false, false), Codes(k) + rest) == Editor(line + ([c] + text), false, false)
    ensures Lines(Editor(line, false, false), Codes(k) + rest) == []
  {
    OneStroke(line, k, c);
    EditJoined(Editor(line, false, false), Codes(k), rest);
    assert line + [c] + text == line + ([c] + text);
  }

  /** And enter then submits exactly that text. */
  lemma {:induction false} TypeAndEnter(text: string)
    requires forall c :: c in text ==> StrokeOf(c).Some?
    ensures Lines(Editor([], false, false), Strokes(text) + [0x1C]) == [text]
    ensures EditAll(Editor([], false, false), Strokes(text) + [0x1C]) == Editor([], false, false)
  {
    TypeText([], text);
    assert [] + text == text;
    EditJoined(Editor([], false, false), Strokes(text), [0x1C]);
    EditOne(Editor(text, false, false), 0x1C);
  }

  /** Letters, digits, punctuation and the space: the 95 printable characters all have a key. */
  lemma AllPrintable(c: char)
    requires 32 <= c as int <= 126
    ensures StrokeOf(c).Some?
  {
  }
}
