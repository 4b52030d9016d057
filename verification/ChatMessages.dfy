/** The wire message of the chat programs: a four-byte textual length followed by the body.

    `Message` is a chat_message as a value, the form in which the queues copy it.
    `ChatMessage` is the same object as its own methods see it: a fixed buffer updated in place. */
module ChatMessages {
  import opened Wrappers

  const HEADER_LENGTH: nat := 4
  const MAX_BODY_LENGTH: nat := 512
  const BUFFER_LENGTH: nat := HEADER_LENGTH + MAX_BODY_LENGTH

  /** The number of values of size_t, to which the result of atoi is converted. */
  const SIZE_T_RANGE: nat := 0x1_0000_0000

  const SPACE: Byte := 32
  const PLUS: Byte := 43
  const MINUS: Byte := 45
  const ZERO: Byte := 48

  datatype RawMessage = Message(data: seq<Byte>, bodyLength: nat)

  type Message = m: RawMessage | |m.data| == BUFFER_LENGTH && m.bodyLength <= MAX_BODY_LENGTH
    witness Message(seq(BUFFER_LENGTH, _ => 0), 0)

  /** The bytes that a message occupies on the wire: data()[..length()]. */
  function Wire(m: Message): (w: seq<Byte>) {
    m.data[..HEADER_LENGTH + m.bodyLength]
  }

  function Body(m: Message): (b: seq<Byte>) {
    m.data[HEADER_LENGTH..HEADER_LENGTH + m.bodyLength]
  }

  // ---------- atoi and "%4d" ----------

  predicate IsSpace(b: Byte) {
    b == SPACE || 9 <= b <= 13
  }

  predicate IsDigit(b: Byte) {
    ZERO <= b <= ZERO + 9
  }

  function SkipSpaces(s: seq<Byte>): (t: seq<Byte>) {
    if s != [] && IsSpace(s[0]) then SkipSpaces(s[1..]) else s
  }

  /** The value of the longest run of digits at the front of `s`, read after the digits of `acc`. */
  function Digits(s: seq<Byte>, acc: nat): (n: nat) {
    if s != [] && IsDigit(s[0]) then Digits(s[1..], 10 * acc + (s[0] - ZERO)) else acc
  }

  function Atoi(s: seq<Byte>): (n: int) {
    var t := SkipSpaces(s);
    if t != [] && t[0] == MINUS then 0 - (Digits(t[1..], 0) as int)
    else if t != [] && t[0] == PLUS then Digits(t[1..], 0)
    else Digits(t, 0)
  }

  /** The conversion of an int to size_t: a negative value wraps around. */
  function ToSizeT(n: int): (u: nat)
    ensures u < SIZE_T_RANGE
  {
    n % SIZE_T_RANGE
  }

  /** The body length that decode_header takes from a header, or None when it refuses it. */
  function HeaderLength(header: seq<Byte>): (n: Option<nat>)
    requires |header| == HEADER_LENGTH
    ensures n.Some? ==> n.value <= MAX_BODY_LENGTH
  {
    var u := ToSizeT(Atoi(header));
    if u > MAX_BODY_LENGTH then None else Some(u)
  }

  function Decimal(n: nat): (s: seq<Byte>) {
    if n < 10 then [ZERO + n] else Decimal(n / 10) + [ZERO + n % 10]
  }

  function PadLeft(s: seq<Byte>, width: nat): (t: seq<Byte>)
    decreases width - |s|
  {
    if |s| >= width then s else PadLeft([SPACE] + s, width)
  }

  /** What "%4d" prints. */
  function FormatLength(n: nat): (s: seq<Byte>) {
    PadLeft(Decimal(n), HEADER_LENGTH)
  }

  lemma {:induction false} DigitsAppend(s: seq<Byte>, t: seq<Byte>, acc: nat)
    requires forall i :: 0 <= i < |s| ==> IsDigit(s[i])
    ensures Digits(s + t, acc) == Digits(t, Digits(s, acc))
  {
    if s == [] {
      assert s + t == t;
    } else {
      assert (s + t)[1..] == s[1..] + t;
      DigitsAppend(s[1..], t, 10 * acc + (s[0] - ZERO));
    }
  }

  lemma {:induction false} DecimalDigits(n: nat)
    ensures Decimal(n) != [] && forall i :: 0 <= i < |Decimal(n)| ==> IsDigit(Decimal(n)[i])
    ensures Digits(Decimal(n), 0) == n
  {
    if n >= 10 {
      DecimalDigits(n / 10);
      var last: seq<Byte> := [ZERO + n % 10];
      DigitsAppend(Decimal(n / 10), last, 0);
      assert last[1..] == [];
    }
  }

  lemma {:induction false} PadLeftSpaces(s: seq<Byte>, width: nat)
    ensures SkipSpaces(PadLeft(s, width)) == SkipSpaces(s)
    ensures |PadLeft(s, width)| == if |s| >= width then |s| else width
    decreases width - |s|
  {
    if |s| < width {
      PadLeftSpaces([SPACE] + s, width);
      assert ([SPACE] + s)[1..] == s;
    }
  }

  lemma AtoiFormat(n: nat)
    ensures Atoi(FormatLength(n)) == n
  {
    DecimalDigits(n);
    PadLeftSpaces(Decimal(n), HEADER_LENGTH);
  }

  /** What encode_header writes is a header of exactly four bytes, and decode_header reads it back. */
  lemma HeaderRoundTrip(n: nat)
    requires n <= MAX_BODY_LENGTH
    ensures |FormatLength(n)| == HEADER_LENGTH
    ensures HeaderLength(FormatLength(n)) == Some(n)
  {
    AtoiFormat(n);
    PadLeftSpaces(Decimal(n), HEADER_LENGTH);
    var tens := n / 10;
    assert |Decimal(tens / 10)| == 1;
    assert |Decimal(tens)| <= 2;
    assert |Decimal(n)| <= 3;
  }

  /** decode_header accepts exactly the headers whose number lies in 0..512: a negative number
      becomes a huge size_t, so it is refused like a number that is too large. */
  lemma HeaderAccepted(header: seq<Byte>)
    requires |header| == HEADER_LENGTH
    ensures HeaderLength(header).Some? <==> 0 <= Atoi(header) <= MAX_BODY_LENGTH
    ensures HeaderLength(header).Some? ==> HeaderLength(header).value == Atoi(header)
  {
    var t := SkipSpaces(header);
    SkipSpacesShrinks(header);
    DigitsBound(t, 0);
    if t != [] {
      DigitsBound(t[1..], 0);
    }
  }

  /** The bytes of "%4d" for every length that encode_header can be given. */
  lemma FormatBytes(n: nat)
    requires n <= 512
    ensures n < 10 ==> FormatLength(n) == [32, 32, 32, 48 + n]
    ensures 10 <= n < 100 ==> FormatLength(n) == [32, 32, 48 + n / 10, 48 + n % 10]
    ensures 100 <= n ==> FormatLength(n) == [32, 48 + n / 100, 48 + n / 10 % 10, 48 + n % 10]
  {
    var s := Decimal(n);
    if n < 10 {
      assert s == [48 + n];
      PadOnce([32, 32] + s);
    } else if n < 100 {
      assert Decimal(n / 10) == [48 + n / 10];
    } else {
      assert Decimal(n / 10) == [48 + n / 100] + [48 + n / 10 % 10];
    }
    PadOnce(s);
    PadOnce([32] + s);
  }

  /** One more space on the left, as long as the width is not reached. */
  lemma PadOnce(s: seq<Byte>)
    requires |s| <= 4
    ensures PadLeft(s, 4) == if |s| == 4 then s else PadLeft([32] + s, 4)
  {
  }

  /** The number that a string of digits denotes. */
  function Denoted(digits: seq<Byte>): (n: int) {
    if digits == [] then 0
    else 10 * Denoted(digits[..|digits| - 1]) + (digits[|digits| - 1] as int - 48)
  }

  lemma {:induction false} DigitsDenote(digits: seq<Byte>, tail: seq<Byte>)
    requires forall i :: 0 <= i < |digits| ==> 48 <= digits[i] <= 57
    requires tail == [] || !(48 <= tail[0] <= 57)
    ensures Digits(digits + tail, 0) == Denoted(digits)
  {
    if digits == [] {
      assert digits + tail == tail;
    } else {
      var (front, last) := (digits[..|digits| - 1], digits[|digits| - 1..]);
      DigitsAppend(digits, tail, 0);
      DigitsDenote(front, []);
      assert front + [] == front && front + last == digits;
      DigitsAppend(front, last, 0);
      assert last[1..] == [];
    }
  }

  lemma {:induction false} SpacesSkipped(spaces: seq<Byte>, t: seq<Byte>)
    requires forall i :: 0 <= i < |spaces| ==> spaces[i] == 32 || 9 <= spaces[i] <= 13
    requires t == [] || !(t[0] == 32 || 9 <= t[0] <= 13)
    ensures SkipSpaces(spaces + t) == t
  {
    if spaces == [] {
      assert spaces + t == t;
    } else {
      assert (spaces + t)[1..] == spaces[1..] + t;
      SpacesSkipped(spaces[1..], t);
    }
  }

  /** atoi on any text: white space, at most one sign, the longest run of digits, and then anything
      that does not continue these. */
  lemma AtoiReads(spaces: seq<Byte>, sign: seq<Byte>, digits: seq<Byte>, tail: seq<Byte>)
    requires forall i :: 0 <= i < |spaces| ==> spaces[i] == 32 || 9 <= spaces[i] <= 13
    requires sign == [] || sign == [43] || sign == [45]
    requires forall i :: 0 <= i < |digits| ==> 48 <= digits[i] <= 57
    requires tail == [] || !(48 <= tail[0] <= 57)
    requires sign == digits == [] && tail != [] ==> !IsSpace(tail[0]) && tail[0] != 43 && tail[0] != 45
    ensures Atoi(spaces + sign + digits + tail) == if sign == [45] then -Denoted(digits) else Denoted(digits)
  {
    hide Digits, Denoted, SkipSpaces;
    var number := digits + tail;
    Regroup(spaces, sign, digits, tail);
    assert SkipSpaces(spaces + (sign + number)) == sign + number by {
      SpacesSkipped(spaces, sign + number);
    }
    DigitsDenote(digits, tail);
    SignRead(spaces + (sign + number), sign, number);
  }

  lemma Regroup(a: seq<Byte>, b: seq<Byte>, c: seq<Byte>, d: seq<Byte>)
    ensures a + b + c + d == a + (b + (c + d))
  {
  }

  lemma SignRead(text: seq<Byte>, sign: seq<Byte>, number: seq<Byte>)
    requires SkipSpaces(text) == sign + number
    requires sign == [] || sign == [43] || sign == [45]
    requires sign == [] && number != [] ==> number[0] != 43 && number[0] != 45
    ensures Atoi(text) == if sign == [45] then -(Digits(number, 0) as int) else Digits(number, 0)
  {
    hide SkipSpaces;
    if sign != [] {
      assert (sign + number)[1..] == number;
    } else {
      assert sign + number == number;
    }
  }

  /** A minus sign before a digit other than 0 has the header refused. */
  lemma NegativeRefused(spaces: seq<Byte>, digit: Byte, tail: seq<Byte>)
    requires |spaces| + 2 + |tail| == 4
    requires forall i :: 0 <= i < |spaces| ==> spaces[i] == 32
    requires 49 <= digit <= 57
    requires forall i :: 0 <= i < |tail| ==> 48 <= tail[i] <= 57
    ensures HeaderLength(spaces + [45] + [digit] + tail) == None
  {
    var digits := [digit] + tail;
    assert spaces + [45] + [digit] + tail == spaces + [45] + digits + [];
    AtoiReads(spaces, [45], digits, []);
    DenotedAtLeast(digits);
    HeaderAccepted(spaces + [45] + [digit] + tail);
  }

  lemma {:induction false} DenotedAtLeast(digits: seq<Byte>)
    requires digits != [] && digits[0] >= 49
    requires forall i :: 0 <= i < |digits| ==> 48 <= digits[i] <= 57
    ensures Denoted(digits) > 0
  {
    if |digits| > 1 {
      DenotedAtLeast(digits[..|digits| - 1]);
    }
  }

  lemma {:induction false} SkipSpacesShrinks(s: seq<Byte>)
    ensures |SkipSpaces(s)| <= |s|
  {
    if s != [] && IsSpace(s[0]) {
      SkipSpacesShrinks(s[1..]);
    }
  }

  /** At most four digits make a number below 10000. */
  lemma {:induction false} DigitsBound(s: seq<Byte>, acc: nat)
    requires |s| <= HEADER_LENGTH && acc < [10000, 1000, 100, 10, 1][|s|]
    ensures Digits(s, acc) < 10000
  {
    if s != [] && IsDigit(s[0]) {
      DigitsBound(s[1..], 10 * acc + (s[0] - ZERO));
    }
  }

  // ---------- the operations on values ----------

  function Clamp(n: nat): (r: nat)
    ensures r <= MAX_BODY_LENGTH
  {
    if n > MAX_BODY_LENGTH then MAX_BODY_LENGTH else n
  }

  /** The buffer after `bytes` were copied into it at offset `at`. */
  function Overwrite(data: seq<Byte>, at: nat, bytes: seq<Byte>): (r: seq<Byte>)
    requires at + |bytes| <= |data|
    ensures |r| == |data|
  {
    data[..at] + bytes + data[at + |bytes|..]
  }

  /** A message whose own header announces its own body: the form that a reader accepts. */
  predicate WellHeaded(m: Message) {
    HeaderLength(m.data[..HEADER_LENGTH]) == Some(m.bodyLength)
  }

  /** A line as std::strlen sees it: up to the first NUL. */
  function CString(line: seq<Byte>): (s: seq<Byte>) {
    if line == [] || line[0] == 0 then [] else [line[0]] + CString(line[1..])
  }

  /** The part of a typed line that the client sends. */
  function Sendable(line: seq<Byte>): (s: seq<Byte>)
    ensures |s| <= MAX_BODY_LENGTH
  {
    CString(line)[..Clamp(|CString(line)|)]
  }

  lemma {:induction false} CStringIsLongest(line: seq<Byte>)
    ensures CString(line) <= line && 0 !in CString(line)
    ensures CString(line) != line ==> line[|CString(line)|] == 0
  {
    if line != [] && line[0] != 0 {
      CStringIsLongest(line[1..]);
    }
  }

  /** What is sent of a line is its longest prefix without a NUL and of at most 512 bytes. */
  lemma SendableIsLongest(line: seq<Byte>)
    ensures Sendable(line) <= line && 0 !in Sendable(line) && |Sendable(line)| <= 512
    ensures |Sendable(line)| == |line| || |Sendable(line)| == 512 || line[|Sendable(line)|] == 0
  {
    CStringIsLongest(line);
  }

  /** A line that fits and holds no NUL is sent as it is, and only such a line. */
  lemma SendableWhole(line: seq<Byte>)
    ensures Sendable(line) == line <==> |line| <= 512 && 0 !in line
  {
    SendableIsLongest(line);
  }

  /** chat_message as the object that its methods update in place. */
  class ChatMessage {
    const data: array<Byte>
    var bodyLength: nat

    ghost predicate Valid()
      reads this
    {
      data.Length == BUFFER_LENGTH && bodyLength <= MAX_BODY_LENGTH
    }

    ghost function Value(): Message
      reads this, data
      requires Valid()
    {
      Message(data[..], bodyLength)
    }

    constructor ()
      ensures Valid() && fresh(data) && bodyLength == 0
    {
      data := new Byte[BUFFER_LENGTH];
      bodyLength := 0;
    }

    method SetBodyLength(newLength: nat)
      requires Valid()
      modifies this
      ensures Valid() && bodyLength == Clamp(newLength)
    {
      bodyLength := newLength;
      if bodyLength > MAX_BODY_LENGTH {
        bodyLength := MAX_BODY_LENGTH;
      }
    }

    /** The line is copied into the body area. */
    method CopyBody(bytes: seq<Byte>)
      requires Valid() && |bytes| == bodyLength
      modifies data
      ensures Valid() && data[..] == Overwrite(old(data[..]), HEADER_LENGTH, bytes)
      ensures Body(Value()) == bytes
    {
      for i := 0 to |bytes|
        invariant forall m :: HEADER_LENGTH <= m < HEADER_LENGTH + i ==> data[m] == bytes[m - HEADER_LENGTH]
        invariant forall m :: 0 <= m < HEADER_LENGTH ==> data[m] == old(data[m])
        invariant forall m :: HEADER_LENGTH + i <= m < data.Length ==> data[m] == old(data[m])
      {
        data[HEADER_LENGTH + i] := bytes[i];
      }
      assert data[..] == Overwrite(old(data[..]), HEADER_LENGTH, bytes);
    }

    /** Whatever the buffer held, the header now announces the body and the body is untouched. */
    method EncodeHeader()
      requires Valid()
      modifies data
      ensures Valid() && WellHeaded(Value()) && Body(Value()) == old(Body(Value()))
      ensures data[..] == FormatLength(bodyLength) + old(data[HEADER_LENGTH..])
    {
      HeaderRoundTrip(bodyLength);
      var header := FormatLength(bodyLength);
      for i := 0 to HEADER_LENGTH
        invariant forall m :: 0 <= m < i ==> data[m] == header[m]
        invariant forall m :: i <= m < data.Length ==> data[m] == old(data[m])
      {
        data[i] := header[i];
      }
      assert data[..HEADER_LENGTH] == header;
      assert data[..] == data[..HEADER_LENGTH] + data[HEADER_LENGTH..];
      assert data[HEADER_LENGTH..] == old(data[HEADER_LENGTH..]);
      assert Body(Value()) == data[HEADER_LENGTH..][..bodyLength];
    }

    /** decode_header: the length is taken from the header, and is 0 when the header is refused. */
    method DecodeHeader() returns (ok: bool)
      requires Valid()
      modifies this
      ensures Valid()
      ensures ok == HeaderLength(data[..HEADER_LENGTH]).Some?
      ensures ok ==> WellHeaded(Value())
      ensures !ok ==> bodyLength == 0
    {
      var n := ToSizeT(Atoi(data[..HEADER_LENGTH]));
      if n > MAX_BODY_LENGTH {
        bodyLength := 0;
        return false;
      }
      bodyLength := n;
      return true;
    }
  }

  /** The message that the client's input loop builds from one line. */
  method BuildMessage(line: seq<Byte>) returns (m: Message)
    ensures WellHeaded(m) && Body(m) == Sendable(line)
    ensures Wire(m) == FormatLength(|Sendable(line)|) + Sendable(line)
    ensures |line| <= 512 && 0 !in line ==> Body(m) == line && Wire(m) == FormatLength(|line|) + line
  {
    SendableWhole(line);
    var msg := new ChatMessage();
    var text := CString(line);
    msg.SetBodyLength(|text|);
    msg.CopyBody(text[..msg.bodyLength]);
    msg.EncodeHeader();
    m := Message(msg.data[..], msg.bodyLength);
    HeaderRoundTrip(m.bodyLength);
    assert m == msg.Value();
    assert m.data[..HEADER_LENGTH] == FormatLength(m.bodyLength);
    assert Wire(m) == m.data[..HEADER_LENGTH] + Body(m);
  }
}
