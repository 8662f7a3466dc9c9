/** Key decoding for a raw-mode terminal: one logical key from a byte stream,
    with the static table of recognised escape sequences. */
module KeyDecoder {

  type byte = bv8

  datatype Option<T> = None | Some(value: T)

  const ENTER: byte := 0x0A      // '\n'
  const BACKSPACE: byte := 127   // DEL
  const ESC: byte := 27

  /** The logical keys. `Char` carries no byte: the byte is delivered separately. */
  datatype Key = Special | Char | Enter | Backspace | ArrowRight | ArrowLeft | CtrlArrowRight | CtrlArrowLeft

  /** Bytes of the sequences in the table. */
  const BRACKET: byte := 0x5B    // '['
  const LETTER_C: byte := 0x43   // 'C'
  const LETTER_D: byte := 0x44   // 'D'
  const DIGIT_1: byte := 0x31    // '1'
  const SEMICOLON: byte := 0x3B  // ';'
  const DIGIT_5: byte := 0x35    // '5'

  /** Longest sequence after ESC, and the number of table slots. */
  const ESC_SEQ_MAX_LEN: nat := 5
  const ESC_SEQ_LEN: nat := 6

  /** One table entry: `value` is the fixed 5-byte array, `len` how many of its bytes belong to the sequence. */
  datatype EscapeSequence = EscapeSequence(key: Key, value: seq<byte>, len: int)

  /** The table: four initialised entries, then two zero-filled slots (key `Special`, all-zero bytes, `len` 0). */
  const EscSeqList: seq<EscapeSequence> := [
    EscapeSequence(ArrowRight, [BRACKET, LETTER_C, 0, 0, 0], 2),
    EscapeSequence(ArrowLeft, [BRACKET, LETTER_D, 0, 0, 0], 2),
    EscapeSequence(CtrlArrowRight, [BRACKET, DIGIT_1, SEMICOLON, DIGIT_5, LETTER_C], 5),
    EscapeSequence(CtrlArrowLeft, [BRACKET, DIGIT_1, SEMICOLON, DIGIT_5, LETTER_D], 5),
    EscapeSequence(Special, [0, 0, 0, 0, 0], 0),
    EscapeSequence(Special, [0, 0, 0, 0, 0], 0)
  ]

  /** The byte the terminal delivers at index `i`; after the end of the input, `read` leaves its buffer at 0. */
  function ByteAt(input: seq<byte>, i: nat): byte
  {
    if i < |input| then input[i] else 0
  }

  /** Entry `e` is skipped at `pos` when `pos == e.len`; otherwise it is matched when the byte at `pos` is its last. */
  predicate Completes(e: EscapeSequence, pos: nat, b: byte)
    requires |e.value| == ESC_SEQ_MAX_LEN && pos < ESC_SEQ_MAX_LEN
  {
    pos != e.len && b == e.value[pos] && e.len - 1 == pos
  }

  /** The key of the first entry, from slot `i` on, that `b` completes at `pos`. */
  function MatchFrom(i: nat, pos: nat, b: byte): Option<Key>
    requires i <= ESC_SEQ_LEN && pos < ESC_SEQ_MAX_LEN
    decreases ESC_SEQ_LEN - i
  {
    if i == ESC_SEQ_LEN then None
    else if Completes(EscSeqList[i], pos, b) then Some(EscSeqList[i].key)
    else MatchFrom(i + 1, pos, b)
  }

  /** Slot `j` of the table is completed by `b` at `pos`. */
  predicate SlotCompletes(j: nat, pos: nat, b: byte)
    requires j < ESC_SEQ_LEN && pos < ESC_SEQ_MAX_LEN
  {
    Completes(EscSeqList[j], pos, b)
  }

  /** The scan finds nothing exactly when no entry from slot `i` on is completed. */
  lemma {:induction false} MatchFromNone(i: nat, pos: nat, b: byte)
    requires i <= ESC_SEQ_LEN && pos < ESC_SEQ_MAX_LEN
    ensures MatchFrom(i, pos, b).None? <==> forall j :: i <= j < ESC_SEQ_LEN ==> !SlotCompletes(j, pos, b)
    decreases ESC_SEQ_LEN - i
  {
    if i < ESC_SEQ_LEN && !SlotCompletes(i, pos, b) {
      MatchFromNone(i + 1, pos, b);
    }
  }

  /** When the scan finds a key, it is the key of the first entry from slot `i` on that is completed. */
  lemma {:induction false} MatchFromFirst(i: nat, pos: nat, b: byte)
    requires i <= ESC_SEQ_LEN && pos < ESC_SEQ_MAX_LEN
    ensures MatchFrom(i, pos, b).Some? ==>
      exists j :: i <= j < ESC_SEQ_LEN && SlotCompletes(j, pos, b) && EscSeqList[j].key == MatchFrom(i, pos, b).value &&
                  forall j' :: i <= j' < j ==> !SlotCompletes(j', pos, b)
    decreases ESC_SEQ_LEN - i
  {
    if i < ESC_SEQ_LEN && !SlotCompletes(i, pos, b) {
      MatchFromFirst(i + 1, pos, b);
    }
  }

  /** Escape resolution from position `pos` (the bytes after ESC start at `at`): the key and the
      number of bytes read after ESC. */
  function ResolveEscape(input: seq<byte>, at: nat, pos: nat): (r: (Key, nat))
    requires pos <= ESC_SEQ_MAX_LEN
    ensures pos <= r.1 <= ESC_SEQ_MAX_LEN && (pos < ESC_SEQ_MAX_LEN ==> pos < r.1)
    decreases ESC_SEQ_MAX_LEN - pos
  {
    if pos == ESC_SEQ_MAX_LEN then (Special, ESC_SEQ_MAX_LEN)
    else match MatchFrom(0, pos, ByteAt(input, at + pos))
      case Some(k) => (k, pos + 1)
      case None => ResolveEscape(input, at, pos + 1)
  }

  /** A byte that is a character of its own: neither ESC, newline nor DEL. */
  predicate Plain(b: byte)
  {
    b != ESC && b != ENTER && b != BACKSPACE
  }

  /** What one call of the decoder yields: the key, the caller's byte slot afterwards, bytes consumed. */
  datatype Decoded = Decoded(key: Key, ch: byte, consumed: nat)

  /** Decode the key starting at index `at`; `ret` is the byte slot's value before the call,
      which only a `Char` overwrites. */
  function DecodeKey(input: seq<byte>, at: nat, ret: byte): (r: Decoded)
    ensures 1 <= r.consumed <= 1 + ESC_SEQ_MAX_LEN
  {
    var b := ByteAt(input, at);
    if b == ESC then
      var (k, n) := ResolveEscape(input, at + 1, 0);
      Decoded(k, ret, 1 + n)
    else if b == ENTER then Decoded(Enter, ret, 1)
    else if b == BACKSPACE then Decoded(Backspace, ret, 1)
    else Decoded(Char, b, 1)
  }

  /** One pass over the table at position `pos` with the byte just read: the key of the first entry it completes. */
  method ScanTable(pos: nat, b: byte) returns (found: Option<Key>)
    requires pos < ESC_SEQ_MAX_LEN
    ensures found == MatchFrom(0, pos, b)
  {
    for i := 0 to ESC_SEQ_LEN
      invariant MatchFrom(i, pos, b) == MatchFrom(0, pos, b)
    {
      var sq := EscSeqList[i];
      assert MatchFrom(i, pos, b) == if Completes(sq, pos, b) then Some(sq.key) else MatchFrom(i + 1, pos, b);
      if pos == sq.len {
        continue;
      }
      if b == sq.value[pos] && sq.len - 1 == pos {
        return Some(sq.key);
      }
    }
    return None;
  }

  /** The decoder: one byte, and after ESC the escape loop. */
  method ReadKey(input: seq<byte>, at: nat, ret: byte) returns (key: Key, ch: byte, consumed: nat)
    ensures Decoded(key, ch, consumed) == DecodeKey(input, at, ret)
  {
    var b := ByteAt(input, at);
    if b == ESC {
      var n;
      key, n := ReadEscape(input, at + 1);
      return key, ret, 1 + n;
    } else if b == ENTER {
      return Enter, ret, 1;
    } else if b == BACKSPACE {
      return Backspace, ret, 1;
    } else {
      return Char, b, 1;
    }
  }

  /** The escape loop: one byte per position `pos` < 5, each compared against the table; the
      bytes after ESC start at `at`. Returns the key and how many bytes it read. */
  method ReadEscape(input: seq<byte>, at: nat) returns (key: Key, n: nat)
    ensures (key, n) == ResolveEscape(input, at, 0)
  {
    ghost var esc := ResolveEscape(input, at, 0);
    var pos := 0;
    while pos < ESC_SEQ_MAX_LEN
      invariant pos <= ESC_SEQ_MAX_LEN
      invariant ResolveEscape(input, at, pos) == esc
    {
      var b := ByteAt(input, at + pos);
      var found := ScanTable(pos, b);
      if found.Some? {
        return found.value, pos + 1;
      }
      pos := pos + 1;
    }
    return Special, ESC_SEQ_MAX_LEN;
  }

  /** At each position, which byte completes which entry: only positions 1 and 4 can match. */
  lemma MatchAt(pos: nat, b: byte)
    requires pos < ESC_SEQ_MAX_LEN
    ensures MatchFrom(0, pos, b) ==
      if pos == 1 && b == LETTER_C then Some(ArrowRight)
      else if pos == 1 && b == LETTER_D then Some(ArrowLeft)
      else if pos == 4 && b == LETTER_C then Some(CtrlArrowRight)
      else if pos == 4 && b == LETTER_D then Some(CtrlArrowLeft)
      else None
  {
    ZeroSlotsNeverMatch(pos, b);
    assert MatchFrom(2, pos, b) == MatchFrom(4, pos, b) || pos == 4;
  }

  /** The two zero-filled slots (len 0) never match, whatever the position and byte. */
  lemma ZeroSlotsNeverMatch(pos: nat, b: byte)
    requires pos < ESC_SEQ_MAX_LEN
    ensures MatchFrom(4, pos, b) == None
    ensures EscSeqList[4].len == 0 && EscSeqList[5].len == 0
  {
    assert !Completes(EscSeqList[4], pos, b) && !Completes(EscSeqList[5], pos, b);
  }

  /** Closed form of decoding after ESC: the byte at position 1 decides a plain arrow (3 bytes in
      all), otherwise the byte at position 4 decides a ctrl-arrow or nothing (6 bytes in all). */
  lemma {:induction false} EscapeDecoding(input: seq<byte>, at: nat, ret: byte)
    requires ByteAt(input, at) == ESC
    ensures DecodeKey(input, at, ret) ==
      var b1 := ByteAt(input, at + 2);
      var b4 := ByteAt(input, at + 5);
      if b1 == LETTER_C then Decoded(ArrowRight, ret, 3)
      else if b1 == LETTER_D then Decoded(ArrowLeft, ret, 3)
      else if b4 == LETTER_C then Decoded(CtrlArrowRight, ret, 6)
      else if b4 == LETTER_D then Decoded(CtrlArrowLeft, ret, 6)
      else Decoded(Special, ret, 6)
  {
    var a := at + 1;
    MatchAt(0, ByteAt(input, a));
    MatchAt(1, ByteAt(input, a + 1));
    MatchAt(2, ByteAt(input, a + 2));
    MatchAt(3, ByteAt(input, a + 3));
    MatchAt(4, ByteAt(input, a + 4));
    assert ResolveEscape(input, a, 0) == ResolveEscape(input, a, 1);
    assert ResolveEscape(input, a, 2) == ResolveEscape(input, a, 3) == ResolveEscape(input, a, 4);
  }

  /** A single byte other than ESC is one key: newline is Enter, DEL is Backspace, any other byte
      is a Char carrying that byte. Only a Char overwrites the caller's byte slot. */
  lemma {:induction false} SingleByteKeys(input: seq<byte>, at: nat, ret: byte)
    ensures var b := ByteAt(input, at);
      var r := DecodeKey(input, at, ret);
      (r.key == Char <==> Plain(b)) &&
      (r.key == Enter <==> b == ENTER) &&
      (r.key == Backspace <==> b == BACKSPACE) &&
      (r.ch == if r.key == Char then b else ret) &&
      (b != ESC ==> r.consumed == 1)
  {
    if ByteAt(input, at) == ESC {
      EscapeDecoding(input, at, ret);
    }
  }

  /** Only the byte at the current position is compared, never the earlier ones: ESC x C is ArrowRight for every x. */
  lemma OnlyLastByteCompared(x: byte, y: byte, rest: seq<byte>, ret: byte)
    ensures DecodeKey([ESC, x, LETTER_C] + rest, 0, ret) == Decoded(ArrowRight, ret, 3)
    ensures DecodeKey([ESC, x, y, 0, 0, LETTER_D] + rest, 0, ret) ==
      if y == LETTER_C then Decoded(ArrowRight, ret, 3)
      else if y == LETTER_D then Decoded(ArrowLeft, ret, 3)
      else Decoded(CtrlArrowLeft, ret, 6)
  {
    EscapeDecoding([ESC, x, LETTER_C] + rest, 0, ret);
    EscapeDecoding([ESC, x, y, 0, 0, LETTER_D] + rest, 0, ret);
  }

  /** A sequence the table does not know, such as the up arrow ESC [ A, takes the next three bytes
      with it, whatever they are, when the last of them is neither C nor D. */
  lemma UnknownSequenceTakesFollowingBytes(x: byte, y: byte, z: byte, ret: byte)
    requires z != LETTER_C && z != LETTER_D
    ensures DecodeKey([ESC, BRACKET, 0x41, x, y, z], 0, ret) == Decoded(Special, ret, 6)
  {
    var s := [ESC, BRACKET, 0x41, x, y, z];
    EscapeDecoding(s, 0, ret);
    assert ByteAt(s, 2) == 0x41 && ByteAt(s, 5) == z;
  }

  /** The plain arrows are recognised after three bytes. */
  lemma ArrowSequences(ret: byte)
    ensures DecodeKey([ESC, BRACKET, LETTER_C], 0, ret) == Decoded(ArrowRight, ret, 3)
    ensures DecodeKey([ESC, BRACKET, LETTER_D], 0, ret) == Decoded(ArrowLeft, ret, 3)
  {
    EscapeDecoding([ESC, BRACKET, LETTER_C], 0, ret);
    EscapeDecoding([ESC, BRACKET, LETTER_D], 0, ret);
  }

  /** The ctrl-arrows share the prefix ESC [ and are recognised only at their fifth byte after ESC. */
  lemma CtrlArrowSequences(ret: byte)
    ensures DecodeKey([ESC, BRACKET, DIGIT_1, SEMICOLON, DIGIT_5, LETTER_C], 0, ret) == Decoded(CtrlArrowRight, ret, 6)
    ensures DecodeKey([ESC, BRACKET, DIGIT_1, SEMICOLON, DIGIT_5, LETTER_D], 0, ret) == Decoded(CtrlArrowLeft, ret, 6)
  {
    var right := [ESC, BRACKET, DIGIT_1, SEMICOLON, DIGIT_5, LETTER_C];
    var left := [ESC, BRACKET, DIGIT_1, SEMICOLON, DIGIT_5, LETTER_D];
    EscapeDecoding(right, 0, ret);
    assert ByteAt(right, 2) == DIGIT_1 && ByteAt(right, 5) == LETTER_C;
    EscapeDecoding(left, 0, ret);
    assert ByteAt(left, 2) == DIGIT_1 && ByteAt(left, 5) == LETTER_D;
  }

  /** An unknown sequence, ESC [ 9 9, yields Special after the longest lookahead, reading 0 past the end. */
  lemma UnknownSequence(ret: byte)
    ensures DecodeKey([ESC, BRACKET, 0x39, 0x39], 0, ret) == Decoded(Special, ret, 6)
  {
    var s := [ESC, BRACKET, 0x39, 0x39];
    EscapeDecoding(s, 0, ret);
    assert ByteAt(s, 2) == 0x39 && ByteAt(s, 5) == 0;
  }
}
