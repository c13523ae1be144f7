/** The adaptive link's wire format: decimal fields joined by colons, behind a
    four-byte length. */
module AlinkWires {
  import opened Bytes

  const COLON: byte := 58
  const MINUS: byte := 45
  const ZERO: byte := 48
  const BUFFER_SIZE := 256

  // Decimal numbers.

  function Digits(n: nat): (s: seq<byte>)
    ensures s != []
  {
    if n < 10 then [ZERO + n] else Digits(n / 10) + [ZERO + n % 10]
  }

  function Print(n: int): seq<byte> {
    if n < 0 then [MINUS] + Digits(-n) else Digits(n)
  }

  predicate AllDigits(s: seq<byte>) {
    forall i :: 0 <= i < |s| ==> ZERO <= s[i] < ZERO + 10
  }

  function ParseDigits(s: seq<byte>): int {
    if s == [] then 0 else ParseDigits(s[..|s| - 1]) * 10 + (s[|s| - 1] - ZERO) as int
  }

  function Parse(s: seq<byte>): int {
    if s != [] && s[0] == MINUS then -ParseDigits(s[1..]) else ParseDigits(s)
  }

  lemma {:induction false} DigitsParse(n: nat)
    ensures AllDigits(Digits(n)) && ParseDigits(Digits(n)) == n
  {
    if n >= 10 {
      DigitsParse(n / 10);
      assert Digits(n)[..|Digits(n)| - 1] == Digits(n / 10);
    } else {
      assert Digits(n)[..0] == [];
    }
  }

  lemma PrintParses(n: int)
    ensures Parse(Print(n)) == n && COLON !in Print(n)
  {
    DigitsParse(if n < 0 then -n else n);
    if n < 0 {
      assert Print(n)[1..] == Digits(-n);
    }
  }

  function Pow10(k: nat): nat {
    if k == 0 then 1 else 10 * Pow10(k - 1)
  }

  lemma {:induction false} DigitsLength(n: nat, k: nat)
    requires k > 0 && n < Pow10(k)
    ensures |Digits(n)| <= k
  {
    if n >= 10 {
      DigitsLength(n / 10, k - 1);
    }
  }

  // Fields.

  function Join(fields: seq<seq<byte>>): seq<byte> {
    if fields == [] then []
    else if |fields| == 1 then fields[0]
    else fields[0] + [COLON] + Join(fields[1..])
  }

  function Split(s: seq<byte>): (fields: seq<seq<byte>>)
    ensures fields != []
  {
    if s == [] then [[]]
    else
      var rest := Split(s[1..]);
      if s[0] == COLON then [[]] + rest else [[s[0]] + rest[0]] + rest[1..]
  }

  lemma {:induction false} SplitField(field: seq<byte>, rest: seq<byte>)
    requires COLON !in field
    ensures Split(field) == [field]
    ensures Split(field + [COLON] + rest) == [field] + Split(rest)
    decreases |field|
  {
    if field == [] {
      assert field + [COLON] + rest == [COLON] + rest && ([COLON] + rest)[1..] == rest;
    } else {
      var whole := field + [COLON] + rest;
      assert whole[0] == field[0] && whole[1..] == field[1..] + [COLON] + rest;
      SplitField(field[1..], rest);
      assert [field[0]] + field[1..] == field;
    }
  }

  lemma {:induction false} SplitJoin(fields: seq<seq<byte>>)
    requires fields != [] && forall i :: 0 <= i < |fields| ==> COLON !in fields[i]
    ensures Split(Join(fields)) == fields
  {
    if |fields| == 1 {
      SplitField(fields[0], []);
    } else {
      SplitField(fields[0], Join(fields[1..]));
      SplitJoin(fields[1..]);
      assert [fields[0]] + fields[1..] == fields;
    }
  }

  lemma {:induction false} JoinSnoc(fields: seq<seq<byte>>, last: seq<byte>)
    requires fields != []
    ensures Join(fields + [last]) == Join(fields) + [COLON] + last
  {
    assert (fields + [last])[0] == fields[0] && (fields + [last])[1..] == fields[1..] + [last];
    if |fields| > 1 {
      JoinSnoc(fields[1..], last);
      assert fields[0] + [COLON] + (Join(fields[1..]) + [COLON] + last)
             == fields[0] + [COLON] + Join(fields[1..]) + [COLON] + last;
    }
  }

  /** The numeric part of a message: a timestamp and nine ints. */
  ghost predicate Printable(numbers: seq<int>) {
    |numbers| == 10 && 0 <= numbers[0] < 0x1_0000_0000_0000_0000
    && forall i :: 1 <= i < 10 ==> -0x8000_0000 <= numbers[i] < 0x8000_0000
  }

  function Printed(numbers: seq<int>): seq<seq<byte>> {
    seq(|numbers|, i requires 0 <= i < |numbers| => Print(numbers[i]))
  }

  /** snprintf into the fixed buffer: what does not fit is cut off. */
  function Numeric(numbers: seq<int>): seq<byte> {
    var text := Join(Printed(numbers));
    if |text| < BUFFER_SIZE then text else text[..BUFFER_SIZE - 1]
  }

  function MessageText(numbers: seq<int>, code: seq<byte>): seq<byte> {
    Numeric(numbers) + if code == [] then [] else [COLON] + code
  }

  lemma {:induction false} JoinLength(fields: seq<seq<byte>>, width: nat)
    requires forall i :: 0 <= i < |fields| ==> |fields[i]| <= width
    ensures |Join(fields)| <= |fields| * (width + 1)
    ensures fields != [] ==> |Join(fields)| < |fields| * (width + 1)
  {
    if |fields| > 1 {
      JoinLength(fields[1..], width);
      assert |fields| * (width + 1) == (|fields| - 1) * (width + 1) + (width + 1);
    }
  }

  lemma PrintLength(n: int)
    ensures 0 <= n < 0x1_0000_0000_0000_0000 ==> |Print(n)| <= 20
    ensures -0x8000_0000 <= n < 0x8000_0000 ==> |Print(n)| <= 11
  {
    assert Pow10(10) == 10_000_000_000;
    assert Pow10(15) == 100_000 * Pow10(10);
    assert Pow10(20) == 100_000 * Pow10(15);
    if 0 <= n < 0x1_0000_0000_0000_0000 { DigitsLength(n, 20); }
    if -0x8000_0000 <= n < 0x8000_0000 { DigitsLength(if n < 0 then -n else n, 10); }
  }

  /** A timestamp and nine ints take at most 128 characters, so the buffer never cuts. */
  lemma NumericFits(numbers: seq<int>)
    requires Printable(numbers)
    ensures |Join(Printed(numbers))| <= 128 && Numeric(numbers) == Join(Printed(numbers))
  {
    var fields := Printed(numbers);
    PrintLength(numbers[0]);
    forall i | 1 <= i < 10
      ensures |fields[i]| <= 11
    {
      PrintLength(numbers[i]);
    }
    JoinLength(fields[1..], 11);
  }

  /** Splitting a message at its colons gives back the ten numbers, and the keyframe
      code as an eleventh field exactly when there is one. */
  lemma MessageReadsBack(numbers: seq<int>, code: seq<byte>)
    requires Printable(numbers) && COLON !in code
    ensures var fields := Split(MessageText(numbers, code));
            && |fields| == (if code == [] then 10 else 11)
            && (forall i :: 0 <= i < 10 ==> Parse(fields[i]) == numbers[i])
            && (code != [] ==> fields[10] == code)
  {
    var printed := Printed(numbers);
    NumericFits(numbers);
    forall i | 0 <= i < 10
      ensures Parse(printed[i]) == numbers[i] && COLON !in printed[i]
    {
      PrintParses(numbers[i]);
    }
    if code == [] {
      assert MessageText(numbers, code) == Join(printed);
      SplitJoin(printed);
    } else {
      JoinSnoc(printed, code);
      assert MessageText(numbers, code) == Join(printed + [code]);
      SplitJoin(printed + [code]);
    }
  }

  // Framing.

  /** The length of a message as a 32-bit word, then the message. */
  function Frame(message: seq<byte>): seq<byte> {
    Be32(|message| % 0x1_0000_0000) + message
  }

  function Frames(messages: seq<seq<byte>>): seq<byte> {
    if messages == [] then [] else Frame(messages[0]) + Frames(messages[1..])
  }

  /** The receiver's side: cut a byte string into messages by their lengths. */
  function Unframe(b: seq<byte>): Option<seq<seq<byte>>> {
    if b == [] then Some([])
    else if |b| < 4 then None
    else
      var n := ReadBe32(b[0], b[1], b[2], b[3]);
      if |b| - 4 < n then None else
      match Unframe(b[4 + n..])
      case None => None
      case Some(rest) => Some([b[4..4 + n]] + rest)
  }

  lemma ReadsHeader(header: seq<byte>, first: seq<byte>, rest: seq<byte>)
    requires |header| == 4
    ensures var b := header + first + rest;
            && |b| == 4 + |first| + |rest|
            && b[0] == header[0] && b[1] == header[1] && b[2] == header[2] && b[3] == header[3]
            && b[4..4 + |first|] == first && b[4 + |first|..] == rest
  {
  }

  lemma FrameParts(message: seq<byte>)
    requires |message| < 0x1_0000_0000
    ensures Frame(message) == Be32(|message|) + message
  {
    hide Be32;
    assert |message| % 0x1_0000_0000 == |message|;
  }

  lemma ReadsLength(first: seq<byte>, rest: seq<byte>)
    requires |first| < 0x1_0000_0000
    ensures var b := Frame(first) + rest;
            && |b| == 4 + |first| + |rest|
            && ReadBe32(b[0], b[1], b[2], b[3]) == |first|
            && b[4..4 + |first|] == first && b[4 + |first|..] == rest
  {
    hide ReadBe32, Be32, Frame;
    ReadsBackBe32(|first|);
    FrameParts(first);
    ReadsHeader(Be32(|first|), first, rest);
  }

  /** Any concatenation of frames decodes, and only to the messages framed. */
  lemma {:induction false} UnframesFrames(messages: seq<seq<byte>>)
    requires forall i :: 0 <= i < |messages| ==> |messages[i]| < 0x1_0000_0000
    ensures Unframe(Frames(messages)) == Some(messages)
  {
    hide Frame, ReadBe32;
    if messages != [] {
      ReadsLength(messages[0], Frames(messages[1..]));
      UnframesFrames(messages[1..]);
      assert [messages[0]] + messages[1..] == messages;
    }
  }
}
