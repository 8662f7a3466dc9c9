/** The line editor on its buffer: the in-place shift routines, the editor state with one step
    per key, and the read loop that decodes keys from the terminal bytes until Enter. */
module LineEditor {
  import opened KeyDecoder
  import opened LineSpec

  function Min(a: nat, b: nat): nat
  {
    if a <= b then a else b
  }

  /** insertch: shifts buf[idx..len) one slot right, writes `val` at `idx`; returns the new length. */
  method InsertCh(buf: array<byte>, len: nat, idx: nat, val: byte) returns (newLen: nat)
    requires idx <= len < buf.Length
    modifies buf
    ensures newLen == len + 1
    ensures buf[..newLen] == Inserted(old(buf[..len]), idx, val)
    ensures buf[newLen..] == old(buf[newLen..])
  {
    var i := len;
    while i > idx
      invariant idx <= i <= len
      invariant forall k :: 0 <= k <= i ==> buf[k] == old(buf[k])
      invariant forall k :: i < k <= len ==> buf[k] == old(buf[k - 1])
      invariant forall k :: len < k < buf.Length ==> buf[k] == old(buf[k])
    {
      buf[i] := buf[i - 1];
      i := i - 1;
    }
    buf[idx] := val;
    newLen := len + 1;
    ShiftedRight(old(buf[..len]), buf[..newLen], idx, val);
  }

  /** removech: on an empty buffer nothing happens; otherwise shifts buf(idx..len) one slot left,
      shortens by one and zeroes the freed slot. An index at or past the last byte removes the last byte. */
  method RemoveCh(buf: array<byte>, len: nat, idx: nat) returns (newLen: nat)
    requires len <= buf.Length
    modifies buf
    ensures len == 0 ==> newLen == 0 && buf[..] == old(buf[..])
    ensures len > 0 ==> newLen == len - 1 && buf[..newLen] == Removed(old(buf[..len]), Min(idx, len - 1))
    ensures len > 0 ==> buf[newLen] == 0 && buf[len..] == old(buf[len..])
  {
    if len == 0 {
      return 0;
    }
    var i := idx;
    while i < len - 1
      invariant idx <= i && (i == idx || i <= len - 1)
      invariant forall k :: 0 <= k < idx && k < buf.Length ==> buf[k] == old(buf[k])
      invariant forall k :: idx <= k < i ==> buf[k] == old(buf[k + 1])
      invariant forall k :: i <= k < buf.Length ==> buf[k] == old(buf[k])
    {
      buf[i] := buf[i + 1];
      i := i + 1;
    }
    newLen := len - 1;
    buf[newLen] := 0;
    ShiftedLeft(old(buf[..len]), buf[..newLen], Min(idx, len - 1));
  }

  /** A sequence one longer than `s` that agrees with `s` below `m`, holds `v` at `m` and `s` shifted by one above is `s` with `v` inserted at `m`. */
  lemma ShiftedRight(s: seq<byte>, t: seq<byte>, m: nat, v: byte)
    requires m <= |s| && |t| == |s| + 1 && t[m] == v
    requires forall k :: 0 <= k < m ==> t[k] == s[k]
    requires forall k :: m < k < |t| ==> t[k] == s[k - 1]
    ensures t == Inserted(s, m, v)
  {
  }

  /** A sequence one shorter than `s` that agrees with `s` below `m` and with `s` shifted by one from `m` on is `s` without index `m`. */
  lemma ShiftedLeft(s: seq<byte>, t: seq<byte>, m: nat)
    requires m < |s| && |t| == |s| - 1
    requires forall k :: 0 <= k < m ==> t[k] == s[k]
    requires forall k :: m <= k < |t| ==> t[k] == s[k + 1]
    ensures t == Removed(s, m)
  {
  }

  /** The state readln keeps over the caller's buffer: the cursor `pos` and the length `strLen`. */
  class Editor {
    const buf: array<byte>
    var pos: nat
    var strLen: nat

    /** The cursor lies within the text and the text leaves the last slot of the buffer free. */
    ghost predicate Valid()
      reads this
    {
      pos <= strLen < buf.Length
    }

    /** The line the editor holds. */
    ghost function State(): Line
      reads this, buf
      requires Valid()
    {
      Line(buf[..strLen], pos)
    }

    /** An empty line with the cursor at 0, over the caller's buffer of capacity `b.Length`. */
    constructor (b: array<byte>)
      requires 1 <= b.Length
      ensures buf == b && Valid() && State() == Line([], 0)
    {
      buf := b;
      pos := 0;
      strLen := 0;
    }

    /** The dispatch of one key in readln's loop (Enter, which ends the loop there, changes nothing here). */
    method Step(key: Key, ch: byte)
      requires Valid()
      modifies this, buf
      ensures Valid()
      ensures State() == Apply(old(State()), KeyEvent(key, ch), buf.Length)
      ensures forall i :: old(strLen) < i < buf.Length ==> buf[i] == old(buf[i])
    {
      match key {
        case Enter =>
        case Special =>
        case Backspace => DeleteBack();
        case ArrowLeft =>
          if pos > 0 {
            pos := pos - 1;
          }
        case ArrowRight =>
          if pos < strLen {
            pos := pos + 1;
          }
        case CtrlArrowLeft => JumpWordLeft();
        case CtrlArrowRight => JumpWordRight();
        case Char => InsertAtCursor(ch);
      }
    }

    /** Backspace: when the cursor is past 0, remove the byte before it and step back. */
    method DeleteBack()
      requires Valid()
      modifies this, buf
      ensures Valid()
      ensures State() == Apply(old(State()), KeyEvent(Backspace, 0), buf.Length)
      ensures forall i :: old(strLen) < i < buf.Length ==> buf[i] == old(buf[i])
    {
      if pos > 0 {
        pos := pos - 1;
        strLen := RemoveCh(buf, strLen, pos);
      }
    }

    /** Char: inserted at the cursor when both the cursor and the length leave room (see the guard of LineSpec.InsertAdmitted). */
    method InsertAtCursor(ch: byte)
      requires Valid()
      modifies this, buf
      ensures Valid()
      ensures State() == Apply(old(State()), KeyEvent(Char, ch), buf.Length)
      ensures forall i :: old(strLen) < i < buf.Length ==> buf[i] == old(buf[i])
    {
      if pos < buf.Length - 1 && strLen < buf.Length - 1 {
        strLen := InsertCh(buf, strLen, pos, ch);
        pos := pos + 1;
      }
    }

    /** CtrlArrowLeft: step left until the byte just stepped onto is a space, or the start is reached. */
    method JumpWordLeft()
      requires Valid()
      modifies this
      ensures Valid() && strLen == old(strLen)
      ensures State() == Apply(old(State()), KeyEvent(CtrlArrowLeft, 0), buf.Length)
    {
      ghost var s := buf[..strLen];
      while pos > 0
        invariant pos <= strLen == old(strLen)
        invariant PrevSpace(s, pos) == PrevSpace(s, old(pos))
      {
        pos := pos - 1;
        if buf[pos] == SPACE {
          break;
        }
      }
    }

    /** CtrlArrowRight: step right until the byte stepped onto is a space, or the end is reached
        (the last step reads buf[strLen], just past the text, which does not change the result). */
    method JumpWordRight()
      requires Valid()
      modifies this
      ensures Valid() && strLen == old(strLen)
      ensures State() == Apply(old(State()), KeyEvent(CtrlArrowRight, 0), buf.Length)
    {
      ghost var s := buf[..strLen];
      while pos < strLen
        invariant pos <= strLen == old(strLen)
        invariant WordRight(s, pos) == WordRight(s, old(pos))
      {
        pos := pos + 1;
        if buf[pos] == SPACE {
          break;
        }
      }
    }
  }

  /** readln over a finite input: decode keys and apply them until Enter, returning the length
      (`None` when the input ends first); the buffer holds the line on return. */
  method ReadLn(buf: array<byte>, input: seq<byte>) returns (r: Option<nat>)
    requires 1 <= buf.Length
    modifies buf
    ensures var o := ReadLine(input, buf.Length);
      buf[..|o.line.text|] == o.line.text &&
      r == if o.Returned? then Some(|o.line.text|) else None
  {
    var ch: byte := 0;
    var at: nat := 0;
    var ed := new Editor(buf);
    ghost var target := ReadLine(input, buf.Length);
    while at < |input|
      invariant fresh(ed) && ed.buf == buf && ed.Valid()
      invariant Run(ed.State(), Events(input, at, ch), buf.Length) == target
      decreases |input| - at
    {
      ghost var line := ed.State();
      ghost var evs := Events(input, at, ch);
      ghost var ret := ch;
      var key, consumed;
      key, ch, consumed := ReadKey(input, at, ch);
      ghost var from := at;
      at := at + consumed;
      EventsStep(input, from, ret, key, ch, at);
      ghost var rest := Events(input, at, ch);
      if key == Enter {
        assert Run(line, evs, buf.Length) == Returned(line);
        return Some(ed.strLen);
      }
      assert evs[1..] == rest;
      assert Run(line, evs, buf.Length) == Run(Apply(line, KeyEvent(key, ch), buf.Length), rest, buf.Length);
      ed.Step(key, ch);
    }
    return None;
  }
}
