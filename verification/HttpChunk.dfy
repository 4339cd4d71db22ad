/**
 * Chunked transfer coding (section 3.6.1 of RFC 2616) as a byte automaton: a well-formed stream
 * delivers its chunks and ends with its trailer.
 */
module HttpChunk {
  import opened Bytes

  const LF: byte := 10
  const CR: byte := 13
  const SP: byte := 32
  const TAB: byte := 9
  const SEMICOLON: byte := 59
  const SIZE_T: int := 0x1_0000_0000_0000_0000

  // ---------------------------------------------------------------- automaton

  /** struct http_chunk */
  datatype Chunk = Chunk(size: nat, lf: nat, trailer: bool, digit: bool, param: bool)

  datatype Status = Going | Last | Broken(err: Errno)

  /** The receiver: parser state, bytes left of the current chunk, and what was delivered. */
  datatype Rx = Rx(chunk: Chunk, left: nat, body: seq<byte>, status: Status)

  const START := Rx(Chunk(0, 0, false, false, false), 0, [], Going)

  function Hex(c: byte): (v: Option<nat>)
    ensures v.Some? ==> v.value < 16
  {
    if 48 <= c <= 57 then Some(c as int - 48)
    else if 65 <= c <= 70 then Some(c as int - 65 + 10)
    else if 97 <= c <= 102 then Some(c as int - 97 + 10)
    else None
  }

  /** One byte of a size line. */
  function SizeStep(rx: Rx, c: byte): Rx {
    var k := rx.chunk;
    if c == LF then
      if !k.digit then rx
      else if k.size == 0 then rx.(chunk := Chunk(0, 1, true, false, false))
      else rx.(chunk := Chunk(0, k.lf, k.trailer, false, false), left := k.size)
    else if k.param then rx
    else if Hex(c).Some? then rx.(chunk := k.(digit := true, size := (k.size * 16 + Hex(c).value) % SIZE_T))
    else if c == CR || c == SP || c == TAB then rx
    else if c == SEMICOLON && k.digit then rx.(chunk := k.(param := true))
    else rx.(status := Broken(EPROTO))
  }

  /** One byte of the trailer: it ends with the second line feed that has only CR since the first. */
  function TrailerStep(rx: Rx, c: byte): Rx {
    var k := rx.chunk;
    if c == LF then
      if k.lf + 1 >= 2 then rx.(chunk := k.(lf := k.lf + 1), status := Last) else rx.(chunk := k.(lf := k.lf + 1))
    else if c == CR then rx
    else rx.(chunk := k.(lf := 0))
  }

  function Step(rx: Rx, c: byte): Rx {
    if !rx.status.Going? then rx
    else if rx.left > 0 then rx.(left := rx.left - 1, body := rx.body + [c])
    else if rx.chunk.trailer then TrailerStep(rx, c)
    else SizeStep(rx, c)
  }

  /** The bytes of s from i on, one by one. */
  function Run(rx: Rx, s: seq<byte>, i: nat): Rx
    requires i <= |s|
    decreases |s| - i
  {
    if i == |s| then rx else Run(Step(rx, s[i]), s, i + 1)
  }

  // ---------------------------------------------------------------- segmentation

  lemma {:induction false} RunShift(rx: Rx, a: seq<byte>, b: seq<byte>, i: nat)
    requires i <= |b|
    ensures Run(rx, a + b, |a| + i) == Run(rx, b, i)
    decreases |b| - i
  {
    hide Step;
    if i < |b| {
      RunShift(Step(rx, b[i]), a, b, i + 1);
    }
  }

  lemma {:induction false} RunJoin(rx: Rx, a: seq<byte>, b: seq<byte>, i: nat)
    requires i <= |a|
    ensures Run(rx, a + b, i) == Run(Run(rx, a, i), b, 0)
    decreases |a| - i
  {
    hide Step;
    if i < |a| {
      RunJoin(Step(rx, a[i]), a, b, i + 1);
    } else {
      RunShift(rx, a, b, 0);
    }
  }

  /** The segments of a connection. */
  datatype Segments = NoMore | Segment(s: seq<byte>, rest: Segments)

  function Joined(segs: Segments): seq<byte> {
    match segs
    case NoMore => []
    case Segment(s, rest) => s + Joined(rest)
  }

  // ---------------------------------------------------------------- well-formed streams

  /** A chunk as sent: its size in hexadecimal, an extension if there is one, and its data. */
  datatype Sent = Sent(digits: seq<byte>, ext: Option<seq<byte>>, data: seq<byte>)

  datatype Body = Trailer(lines: Lines) | More(chunk: Sent, rest: Body)
  datatype Lines = NoLine | Line(text: seq<byte>, rest: Lines)

  const CRLF: seq<byte> := [CR, LF]

  /** The number that the digits from i on append to v. */
  function Value(digits: seq<byte>, i: nat, v: nat): nat
    requires i <= |digits| && AllHex(digits)
    decreases |digits| - i
  {
    if i == |digits| then v else Value(digits, i + 1, (v * 16 + Hex(digits[i]).value) % SIZE_T)
  }

  /** The character of a hexadecimal digit, in either case. */
  function Digit(d: nat, upper: bool): byte
    requires d < 16
  {
    if d < 10 then 48 + d else if upper then 55 + d else 87 + d
  }

  /** Hexadecimal digits are read in both cases, and nothing else is. */
  lemma {:induction false} HexIff(c: byte, d: nat)
    requires d < 16
    ensures Hex(c) == Some(d) <==> c == Digit(d, true) || c == Digit(d, false)
  {}

  /** The number that the numeral stands for. */
  function Numeral(digits: seq<byte>): nat
    requires AllHex(digits)
  {
    if digits == [] then 0
    else
      assert AllHex(digits[..|digits| - 1]);
      Numeral(digits[..|digits| - 1]) * 16 + Hex(digits[|digits| - 1]).value
  }

  /** The size read is the number of the numeral, as far as it fits the size type. */
  lemma {:induction false} SizeIsNumeral(digits: seq<byte>, i: nat)
    requires i <= |digits| && AllHex(digits)
    ensures AllHex(digits[..i]) && Value(digits, 0, 0) == Value(digits, i, Numeral(digits[..i]) % SIZE_T)
    decreases i
  {
    if i > 0 {
      SizeIsNumeral(digits, i - 1);
      assert digits[..i][..i - 1] == digits[..i - 1];
      var v := Numeral(digits[..i - 1]);
      Rest16(v, Hex(digits[i - 1]).value);
    } else {
      assert digits[..0] == [];
    }
  }

  lemma {:induction false} Rest16(v: nat, d: nat)
    ensures (v % SIZE_T * 16 + d) % SIZE_T == (v * 16 + d) % SIZE_T
  {
    var q := v / SIZE_T;
    assert v * 16 + d == v % SIZE_T * 16 + d + 16 * q * SIZE_T;
  }

  lemma {:induction false} SizeIs(digits: seq<byte>)
    requires AllHex(digits)
    ensures Value(digits, 0, 0) == Numeral(digits) % SIZE_T
  {
    SizeIsNumeral(digits, |digits|);
    assert digits[..|digits|] == digits;
  }

  predicate AllHex(digits: seq<byte>) {
    forall i :: 0 <= i < |digits| ==> Hex(digits[i]).Some?
  }

  predicate SentOk(c: Sent) {
    && c.digits != [] && AllHex(c.digits) && c.data != [] && Value(c.digits, 0, 0) == |c.data|
    && (c.ext.Some? ==> LF !in c.ext.value)
  }

  predicate LinesOk(lines: Lines) {
    lines.Line? ==> LF !in lines.text && (exists i :: 0 <= i < |lines.text| && lines.text[i] != CR) && LinesOk(lines.rest)
  }

  predicate BodyOk(b: Body) {
    match b
    case Trailer(lines) => LinesOk(lines)
    case More(c, rest) => SentOk(c) && BodyOk(rest)
  }

  function ExtBytes(e: Option<seq<byte>>): seq<byte> {
    if e.Some? then [SEMICOLON] + e.value else []
  }

  function LineBytes(lines: Lines): seq<byte> {
    match lines
    case NoLine => [CR]
    case Line(text, rest) => text + (CRLF + LineBytes(rest))
  }

  /** The stream up to, but without, its very last line feed. */
  function BodyBytes(b: Body): seq<byte> {
    match b
    case Trailer(lines) => [48] + (CRLF + LineBytes(lines))
    case More(c, rest) => c.digits + (ExtBytes(c.ext) + (CRLF + (c.data + (CRLF + BodyBytes(rest)))))
  }

  function Data(b: Body): seq<byte> {
    match b
    case Trailer(_) => []
    case More(c, rest) => c.data + Data(rest)
  }

  /** Between chunks, with the given bytes delivered. */
  function Ready(body: seq<byte>): Rx {
    START.(body := body)
  }

  lemma {:induction false} RunDigits(rx: Rx, digits: seq<byte>, i: nat)
    requires i <= |digits| && AllHex(digits) && rx.status.Going? && rx.left == 0 && !rx.chunk.trailer && !rx.chunk.param
    ensures Run(rx, digits, i) ==
            if i == |digits| then rx else rx.(chunk := rx.chunk.(digit := true, size := Value(digits, i, rx.chunk.size)))
    decreases |digits| - i
  {
    if i < |digits| {
      var c := digits[i];
      assert Hex(c).Some?;
      RunDigits(Step(rx, c), digits, i + 1);
    }
  }

  lemma {:induction false} RunExt(rx: Rx, s: seq<byte>, i: nat)
    requires i <= |s| && LF !in s && rx.status.Going? && rx.left == 0 && !rx.chunk.trailer && rx.chunk.param
    ensures Run(rx, s, i) == rx
    decreases |s| - i
  {
    if i < |s| {
      assert s[i] != LF;
      RunExt(rx, s, i + 1);
    }
  }

  lemma {:induction false} RunData(rx: Rx, s: seq<byte>, i: nat)
    requires i <= |s| && rx.status.Going? && rx.left >= |s| - i
    ensures Run(rx, s, i) == rx.(left := rx.left - (|s| - i), body := rx.body + s[i..])
    decreases |s| - i
  {
    if i < |s| {
      RunData(Step(rx, s[i]), s, i + 1);
      assert rx.body + [s[i]] + s[i + 1..] == rx.body + s[i..];
    } else {
      assert rx.body + s[i..] == rx.body;
    }
  }

  lemma {:induction false} RunCrLf(rx: Rx)
    ensures Run(rx, CRLF, 0) == Step(Step(rx, CR), LF)
  {
    hide Step;
    assert Run(Step(Step(rx, CR), LF), CRLF, 2) == Step(Step(rx, CR), LF);
    assert Run(Step(rx, CR), CRLF, 1) == Step(Step(rx, CR), LF);
  }

  /** A size line, with or without extension, leads to its data. */
  lemma {:induction false} RunSize(rx: Rx, c: Sent, tail: seq<byte>)
    requires rx == Ready(rx.body) && c.digits != [] && AllHex(c.digits) && Value(c.digits, 0, 0) > 0
    requires c.ext.Some? ==> LF !in c.ext.value
    ensures Run(rx, c.digits + (ExtBytes(c.ext) + (CRLF + tail)), 0) == Run(rx.(left := Value(c.digits, 0, 0)), tail, 0)
  {
    hide Run, Step, Value, Hex;
    var n := Value(c.digits, 0, 0);
    var x, y := ExtBytes(c.ext) + (CRLF + tail), CRLF + tail;
    RunJoin(rx, c.digits, x, 0);
    RunDigits(rx, c.digits, 0);
    var rx1 := Run(rx, c.digits, 0);
    RunJoin(rx1, ExtBytes(c.ext), y, 0);
    RunExtension(rx1, c.ext);
    var rx2 := Run(rx1, ExtBytes(c.ext), 0);
    RunJoin(rx2, CRLF, tail, 0);
    RunCrLf(rx2);
    SizeDone(rx2, n);
  }

  lemma {:induction false} SizeDone(rx: Rx, n: nat)
    requires rx.status.Going? && rx.left == 0 && rx.chunk.size == n > 0 && rx.chunk.digit && !rx.chunk.trailer && rx.chunk.lf == 0
    ensures Step(Step(rx, CR), LF) == Rx(START.chunk, n, rx.body, Going)
  {}

  /** An extension changes nothing but the flag that says so. */
  lemma {:induction false} RunExtension(rx: Rx, e: Option<seq<byte>>)
    requires rx.status.Going? && rx.left == 0 && !rx.chunk.trailer && !rx.chunk.param && rx.chunk.digit
    requires e.Some? ==> LF !in e.value
    ensures Run(rx, ExtBytes(e), 0) == if e.Some? then rx.(chunk := rx.chunk.(param := true)) else rx
  {
    if e.Some? {
      RunJoin(rx, [SEMICOLON], e.value, 0);
      var rx1 := rx.(chunk := rx.chunk.(param := true));
      assert Run(rx1, [SEMICOLON], 1) == rx1;
      assert Run(rx, [SEMICOLON], 0) == rx1;
      RunExt(rx1, e.value, 0);
    }
  }

  predicate Blank(c: byte) {
    c == 9 || c == 13 || c == 32
  }

  predicate Plain(s: seq<byte>) {
    forall i :: 0 <= i < |s| ==> Hex(s[i]).Some? || Blank(s[i])
  }

  /** The hexadecimal digits of a line, without the blanks between them. */
  function Digits(s: seq<byte>): (r: seq<byte>)
    ensures AllHex(r)
  {
    if s == [] then [] else (if Hex(s[0]).Some? then [s[0]] else []) + Digits(s[1..])
  }

  lemma {:induction false} ValueCons(d: byte, digits: seq<byte>, i: nat, v: nat)
    requires Hex(d).Some? && AllHex(digits) && i <= |digits|
    ensures AllHex([d] + digits) && Value([d] + digits, i + 1, v) == Value(digits, i, v)
    decreases |digits| - i
  {
    if i < |digits| {
      ValueCons(d, digits, i + 1, (v * 16 + Hex(digits[i]).value) % SIZE_T);
    }
  }

  lemma {:induction false} RunPlain(rx: Rx, s: seq<byte>, i: nat)
    requires i <= |s| && Plain(s) && rx.status.Going? && rx.left == 0 && !rx.chunk.trailer && !rx.chunk.param
    ensures var k, d := rx.chunk, Digits(s[i..]);
            Run(rx, s, i) == rx.(chunk := k.(digit := k.digit || d != [], size := Value(d, 0, k.size)))
    decreases |s| - i
  {
    if i < |s| {
      var c, rest := s[i], Digits(s[i + 1..]);
      assert s[i..][1..] == s[i + 1..] && (Hex(c).Some? || Blank(c));
      RunPlain(Step(rx, c), s, i + 1);
      if Hex(c).Some? {
        ValueCons(c, rest, 0, (rx.chunk.size * 16 + Hex(c).value) % SIZE_T);
      } else {
        assert [] + rest == rest;
      }
    }
  }

  /**
   * Every size line. Its front are digits and blanks; the blanks are skipped, even between digits. It is
   * refused exactly if the front is followed by anything but a semicolon, or by one although there is no digit.
   */
  lemma {:induction false} SizeLine(rx: Rx, front: seq<byte>, rest: seq<byte>)
    requires rx == Ready(rx.body) && Plain(front) && LF !in rest && (rest != [] ==> !Plain(rest[..1]))
    ensures var size, some := Numeral(Digits(front)) % SIZE_T, Digits(front) != [];
            Run(rx, front + rest, 0) ==
            if rest == [] then rx.(chunk := Chunk(size, 0, false, some, false))
            else if rest[0] == 59 && some then rx.(chunk := Chunk(size, 0, false, some, true))
            else rx.(chunk := Chunk(size, 0, false, some, false), status := Broken(EPROTO))
  {
    hide Value, Numeral, Digits;
    RunJoin(rx, front, rest, 0);
    RunPlain(rx, front, 0);
    assert front[0..] == front;
    SizeIs(Digits(front));
    if rest != [] {
      var c, rx1 := rest[0], Run(rx, front, 0);
      assert rest[..1][0] == c && c in rest;
      NotPlain(c, rest[..1]);
      if c == 59 && rx1.chunk.digit {
        RunExt(Step(rx1, c), rest, 1);
      } else {
        RunBroken(Step(rx1, c), rest, 1);
      }
    }
  }

  lemma {:induction false} NotPlain(c: byte, s: seq<byte>)
    requires s == [c] && !Plain(s)
    ensures Hex(c).None? && !Blank(c)
  {}

  lemma {:induction false} RunBroken(rx: Rx, s: seq<byte>, i: nat)
    requires i <= |s| && rx.status.Broken?
    ensures Run(rx, s, i) == rx
    decreases |s| - i
  {
    if i < |s| {
      RunBroken(rx, s, i + 1);
    }
  }

  /** A whole chunk delivers its data and leaves the receiver ready for the next. */
  lemma {:induction false} RunChunk(rx: Rx, c: Sent, tail: seq<byte>)
    requires rx == Ready(rx.body) && SentOk(c)
    ensures Run(rx, c.digits + (ExtBytes(c.ext) + (CRLF + (c.data + (CRLF + tail)))), 0) == Run(Ready(rx.body + c.data), tail, 0)
  {
    hide Run, Step, Value, Hex;
    RunSize(rx, c, c.data + (CRLF + tail));
    var rx1 := rx.(left := |c.data|);
    RunJoin(rx1, c.data, CRLF + tail, 0);
    RunData(rx1, c.data, 0);
    assert c.data[0..] == c.data;
    var rx2 := Ready(rx.body + c.data);
    RunJoin(rx2, CRLF, tail, 0);
    RunCrLf(rx2);
    BlankLine(rx2);
  }

  lemma {:induction false} BlankLine(rx: Rx)
    requires rx == Ready(rx.body)
    ensures Step(Step(rx, CR), LF) == rx
  {}

  /** In the trailer, with lf line feeds seen. */
  function InTrailer(body: seq<byte>, lf: nat): Rx {
    Rx(Chunk(0, lf, true, false, false), 0, body, Going)
  }

  lemma {:induction false} RunLine(body: seq<byte>, lf: nat, s: seq<byte>, i: nat)
    requires i <= |s| && LF !in s && lf <= 1
    ensures Run(InTrailer(body, lf), s, i) == InTrailer(body, if exists k :: i <= k < |s| && s[k] != CR then 0 else lf)
    decreases |s| - i
  {
    if i < |s| {
      assert s[i] != LF;
      RunLine(body, if s[i] == CR then lf else 0, s, i + 1);
    }
  }

  lemma {:induction false} RunLines(body: seq<byte>, lines: Lines)
    requires LinesOk(lines)
    ensures Run(InTrailer(body, 1), LineBytes(lines), 0) == InTrailer(body, 1)
    decreases lines
  {
    hide Run, Step;
    match lines
    case NoLine =>
      RunLine(body, 1, [CR], 0);
    case Line(text, rest) =>
      RunJoin(InTrailer(body, 1), text, CRLF + LineBytes(rest), 0);
      RunLine(body, 1, text, 0);
      RunJoin(InTrailer(body, 0), CRLF, LineBytes(rest), 0);
      RunCrLf(InTrailer(body, 0));
      LineEnd(body);
      RunLines(body, rest);
  }

  lemma {:induction false} LineEnd(body: seq<byte>)
    ensures Step(Step(InTrailer(body, 0), CR), LF) == InTrailer(body, 1)
  {}

  lemma {:induction false} RunZero(body: seq<byte>)
    ensures Run(Ready(body), [48], 0) == Ready(body).(chunk := START.chunk.(digit := true))
    ensures Step(Step(Ready(body).(chunk := START.chunk.(digit := true)), CR), LF) == InTrailer(body, 1)
  {
    var rx := Ready(body).(chunk := START.chunk.(digit := true));
    assert Run(rx, [48], 1) == rx;
  }

  /** All of a stream but its last byte delivers the data and is not over. */
  lemma {:induction false} RunBody(rx: Rx, b: Body)
    requires rx == Ready(rx.body) && BodyOk(b)
    ensures Run(rx, BodyBytes(b), 0) == InTrailer(rx.body + Data(b), 1)
    decreases b
  {
    hide Run, Step, SentOk, LinesOk;
    match b
    case Trailer(lines) =>
      RunJoin(rx, [48], CRLF + LineBytes(lines), 0);
      RunZero(rx.body);
      var rx1 := rx.(chunk := START.chunk.(digit := true));
      RunJoin(rx1, CRLF, LineBytes(lines), 0);
      RunCrLf(rx1);
      RunLines(rx.body, lines);
      assert rx.body + [] == rx.body;
    case More(c, rest) =>
      RunChunk(rx, c, BodyBytes(rest));
      RunBody(Ready(rx.body + c.data), rest);
      assert rx.body + (c.data + Data(rest)) == rx.body + c.data + Data(rest);
  }

  /** A well-formed body delivers the concatenation of its chunks, and ends with the last byte of its trailer. */
  lemma {:induction false} ChunksDelivered(b: Body)
    requires BodyOk(b)
    ensures Run(START, BodyBytes(b) + [LF], 0).body == Data(b) && Run(START, BodyBytes(b) + [LF], 0).status == Last
    ensures Run(START, BodyBytes(b), 0).status == Going && Run(START, BodyBytes(b), 0).body == Data(b)
  {
    hide Run, BodyOk;
    RunJoin(START, BodyBytes(b), [LF], 0);
    RunBody(START, b);
    assert [] + Data(b) == Data(b);
    FinalLf(Data(b));
  }

  lemma {:induction false} FinalLf(body: seq<byte>)
    ensures Run(InTrailer(body, 1), [LF], 0).status == Last && Run(InTrailer(body, 1), [LF], 0).body == body
  {
    var rx := Step(InTrailer(body, 1), LF);
    assert Run(rx, [LF], 1) == rx;
  }
}
