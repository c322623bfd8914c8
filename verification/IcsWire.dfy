/**
 The wire format of ICS messages as values: little-endian integers, prefixed strings, the 16-byte head,
 the length and checksum that frame a message, and what verifying and reading a message gives back.

 The head is name[4] version[2] length[2] flags[2] send[2] ack[2] id[2]; a 4-byte checksum ends the message.
 */
module IcsWire {
  import opened Octets

  const HEAD := 16
  const CRC := 4
  const NAME: bytes := [73, 67, 83, 35]  // ICS#
  const PROTOCOL_VERSION := 0x0101
  const TWO_16 := 0x1_0000

  const VERSION_AT := 4
  const LENGTH_AT := 6
  const FLAG_AT := 8
  const SEND_AT := 10
  const ACK_AT := 12
  const ID_AT := 14

  /** The checksum function: 32 bits, otherwise unknown. */
  type Checksum = bytes -> word32

  type word32 = n: nat | n < TWO_32

  // ------------------------------------------------------------------ integers

  function Pow256(width: nat): (p: nat)
    ensures p > 0
  {
    if width == 0 then 1 else 256 * Pow256(width - 1)
  }

  /** The low `width` bytes of n, least significant first: a cast to that width, as stored. */
  function LittleEndian(n: nat, width: nat): (b: bytes)
    ensures |b| == width
  {
    if width == 0 then [] else [n % 256] + LittleEndian(n / 256, width - 1)
  }

  function FromLittleEndian(b: bytes): nat {
    if b == [] then 0 else b[0] + 256 * FromLittleEndian(b[1..])
  }

  lemma {:induction false} IntegerBack(n: nat, width: nat)
    ensures FromLittleEndian(LittleEndian(n, width)) == n % Pow256(width)
  {
    if width > 0 {
      var rest := LittleEndian(n / 256, width - 1);
      IntegerBack(n / 256, width - 1);
      assert ([n % 256] + rest)[1..] == rest;
      ModSplit(n, Pow256(width - 1));
    }
  }

  lemma ModSplit(n: nat, p: nat)
    requires p > 0
    ensures n % 256 + 256 * (n / 256 % p) == n % (256 * p)
  {
    var q, r := n / 256, n % 256;
    var k, m := q / p, q % p;
    assert n == 256 * q + r && q == p * k + m;
    assert n == (256 * p) * k + (256 * m + r) by {
      assert 256 * (p * k + m) == (256 * p) * k + 256 * m;
    }
    assert 256 * m + r < 256 * p by {
      assert m + 1 <= p;
      assert 256 * (m + 1) <= 256 * p;
    }
    RemainderIs(n, 256 * p, k, 256 * m + r);
  }

  lemma RemainderIs(n: nat, d: nat, k: nat, r: nat)
    requires r < d && n == d * k + r
    ensures n % d == r
  {
    QuotientNotLess(d, k, r, n / d, n % d);
    QuotientNotLess(d, n / d, n % d, k, r);
  }

  lemma QuotientNotLess(d: nat, q: nat, r: nat, k: nat, e: nat)
    requires r < d && e < d && d * q + r == d * k + e
    ensures q <= k
  {
    if k < q {
      MulAtLeast(d, k + 1, q);
    }
  }

  lemma QuotientIs(n: nat, d: nat, k: nat, r: nat)
    requires r < d && n == d * k + r
    ensures n / d == k
  {
    QuotientNotLess(d, k, r, n / d, n % d);
    QuotientNotLess(d, n / d, n % d, k, r);
  }

  lemma DivideTwice(n: nat, a: nat, b: nat)
    requires a > 0 && b > 0
    ensures a * b > 0 && n / (a * b) == n / a / b
  {
    var q, r := n / a, n % a;
    var k, m := q / b, q % b;
    assert n == a * q + r && q == b * k + m;
    assert a * q == a * (b * k) + a * m;
    assert a * (b * k) == (a * b) * k;
    assert a * m + r < a * b by {
      assert m + 1 <= b;
      MulAtLeast(a, m + 1, b);
    }
    QuotientIs(n, a * b, k, a * m + r);
  }

  /** The i-th byte of an integer is its i-th digit in base 256, the least significant first. */
  lemma {:induction false} LittleEndianDigits(n: nat, width: nat, i: nat)
    requires i < width
    ensures LittleEndian(n, width)[i] == n / Pow256(i) % 256
    decreases i
  {
    if i > 0 {
      LittleEndianDigits(n / 256, width - 1, i - 1);
      DivideTwice(n, 256, Pow256(i - 1));
    }
  }

  /** Reading bytes gives the number that has them as digits, the first the least significant. */
  lemma {:induction false} FromLittleEndianDigits(b: bytes, i: nat)
    requires i < |b|
    ensures FromLittleEndian(b) / Pow256(i) % 256 == b[i] && FromLittleEndian(b) < Pow256(|b|)
    decreases |b|
  {
    LittleEndianBound(b);
    if i > 0 {
      var rest := FromLittleEndian(b[1..]);
      FromLittleEndianDigits(b[1..], i - 1);
      QuotientIs(b[0] + 256 * rest, 256, rest, b[0]);
      DivideTwice(b[0] + 256 * rest, 256, Pow256(i - 1));
    }
  }

  lemma {:induction false} LittleEndianBound(b: bytes)
    ensures FromLittleEndian(b) < Pow256(|b|)
  {
    if b != [] {
      LittleEndianBound(b[1..]);
    }
  }

  /** The words of the head are in the same order as the integers of the body. */
  lemma WordIsInteger(b: bytes, at: nat)
    requires at + 2 <= |b|
    ensures Word(b, at) == FromLittleEndian(b[at..at + 2]) == (b[at] as int) + 256 * (b[at + 1] as int)
  {
    var w := b[at..at + 2];
    assert w[1..] == [b[at + 1]] && w[1..][1..] == [] && FromLittleEndian([]) == 0;
    assert FromLittleEndian(w[1..]) == b[at + 1];
  }

  lemma MulAtLeast(d: nat, a: nat, b: nat)
    requires a <= b
    ensures d * a <= d * b
  {}

  lemma Pow256Values()
    ensures Pow256(1) == 256 && Pow256(2) == TWO_16 && Pow256(4) == TWO_32
  {
    assert Pow256(0) == 1 && Pow256(3) == 0x100_0000;
  }

  // ------------------------------------------------------------------ fields

  /** What the stream operators write: integers by width, date-times, strings by the width of their prefix. */
  datatype Field =
    | Integer(width: nat, value: nat)
    | DateTime(year: nat, month: nat, day: nat, hour: nat, minute: nat, seconds: nat)
    | Text(prefix: nat, text: bytes)

  datatype Shape = IntegerShape(width: nat) | DateTimeShape | TextShape(prefix: nat)

  function ShapeOf(f: Field): Shape {
    match f
    case Integer(width, _) => IntegerShape(width)
    case DateTime(_, _, _, _, _, _) => DateTimeShape
    case Text(prefix, _) => TextShape(prefix)
  }

  function EncodeText(text: bytes, prefix: nat): bytes {
    LittleEndian(|CStr(text)|, prefix) + CStr(text)
  }

  function EncodeField(f: Field): bytes {
    match f
    case Integer(width, value) => LittleEndian(value, width)
    case DateTime(year, month, day, hour, minute, seconds) =>
      LittleEndian(year, 2) + LittleEndian(month, 1) + LittleEndian(day, 1) + LittleEndian(hour, 1)
      + LittleEndian(minute, 1) + LittleEndian(seconds, 2)
    case Text(prefix, text) => EncodeText(text, prefix)
  }

  /** The values that the types of the source can hold. */
  predicate Typed(f: Field) {
    match f
    case Integer(width, value) => value < Pow256(width)
    case DateTime(year, month, day, hour, minute, seconds) =>
      year < TWO_16 && month < 256 && day < 256 && hour < 256 && minute < 256 && seconds < TWO_16
    case Text(prefix, _) => prefix > 0
  }

  /** A string that its prefix and the C string convention can carry. */
  predicate Carried(text: bytes, prefix: nat) {
    0 !in text && |text| < Pow256(prefix)
  }

  predicate Sendable(f: Field) {
    f.Text? ==> Carried(f.text, f.prefix)
  }

  function ReadInteger(data: bytes, pos: nat, width: nat): (r: Option<(nat, nat)>)
    requires pos <= |data|
    ensures r.Some? ==> r.value.1 == pos + width <= |data|
    ensures r.Some? <==> pos + width <= |data|
  {
    if pos + width > |data| then None else Some((FromLittleEndian(data[pos..pos + width]), pos + width))
  }

  function ReadText(data: bytes, pos: nat, prefix: nat): (r: Option<(bytes, nat)>)
    requires pos <= |data|
    ensures r.Some? ==> pos + prefix <= r.value.1 <= |data|
  {
    var len := ReadInteger(data, pos, prefix);
    if len.None? || len.value.1 + len.value.0 > |data| then None
    else Some((data[len.value.1..len.value.1 + len.value.0], len.value.1 + len.value.0))
  }

  function ReadField(shape: Shape, data: bytes, pos: nat): (r: Option<(Field, nat)>)
    requires pos <= |data|
    ensures r.Some? ==> r.value.1 <= |data|
  {
    match shape
    case IntegerShape(width) =>
      var n := ReadInteger(data, pos, width);
      if n.None? then None else Some((Integer(width, n.value.0), n.value.1))
    case DateTimeShape =>
      if pos + 8 > |data| then None
      else
        Some((DateTime(FromLittleEndian(data[pos..pos + 2]), data[pos + 2], data[pos + 3], data[pos + 4], data[pos + 5],
                       FromLittleEndian(data[pos + 6..pos + 8])), pos + 8))
    case TextShape(prefix) =>
      var t := ReadText(data, pos, prefix);
      if t.None? then None else Some((Text(prefix, t.value.0), t.value.1))
  }

  // ------------------------------------------------------------------ one field, written and read

  lemma IntegerRead(data: bytes, pos: nat, width: nat, n: nat)
    requires n < Pow256(width) && pos + width <= |data| && data[pos..pos + width] == LittleEndian(n, width)
    ensures ReadInteger(data, pos, width) == Some((n, pos + width))
  {
    IntegerBack(n, width);
    ModOfSmall(n, Pow256(width));
  }

  lemma ModOfSmall(n: nat, d: nat)
    requires n < d
    ensures n % d == n
  {}

  /** What is left of a string of which only the low bytes of the length are sent. */
  function Counted(c: bytes, prefix: nat): (r: bytes)
    ensures |r| == |c| % Pow256(prefix) && r <= c
    ensures r == c <==> |c| < Pow256(prefix)
  {
    ModAtMost(|c|, Pow256(prefix));
    c[..|c| % Pow256(prefix)]
  }

  lemma ModAtMost(n: nat, d: nat)
    requires d > 0
    ensures n % d <= n
    ensures n % d == n <==> n < d
  {}

  /** Reading where a string was written: the length comes back modulo what the prefix can count. */
  lemma TextRead(data: bytes, pos: nat, prefix: nat, text: bytes)
    requires var x := EncodeText(text, prefix); pos + |x| <= |data| && data[pos..pos + |x|] == x
    ensures var r := Counted(CStr(text), prefix);
            ReadText(data, pos, prefix) == Some((r, pos + prefix + |r|))
  {
    hide CStr, Pow256, LittleEndian, FromLittleEndian;
    var c, x := CStr(text), EncodeText(text, prefix);
    var r := Counted(c, prefix);
    IntegerBack(|c|, prefix);
    SliceOfSlice(data, pos, x, 0, LittleEndian(|c|, prefix));
    SliceOfSlice(data, pos, x, prefix, r);
  }

  lemma SliceOfSlice(data: bytes, pos: nat, x: bytes, from: nat, part: bytes)
    requires pos + |x| <= |data| && data[pos..pos + |x|] == x
    requires from + |part| <= |x| && x[from..from + |part|] == part
    ensures data[pos + from..pos + from + |part|] == part
  {
    forall i | 0 <= i < |part|
      ensures data[pos + from..pos + from + |part|][i] == part[i]
    {
      assert data[pos..pos + |x|][from + i] == x[from..from + |part|][i];
    }
  }

  /** A string comes back, and is read to its end, exactly when it is NUL-free and its prefix can count it. */
  lemma TextBack(data: bytes, pos: nat, prefix: nat, text: bytes)
    requires var x := EncodeText(text, prefix); pos + |x| <= |data| && data[pos..pos + |x|] == x
    ensures Carried(text, prefix) <==> (ReadText(data, pos, prefix) == Some((text, pos + |EncodeText(text, prefix)|)))
    ensures ReadText(data, pos, prefix).Some?
    ensures !Carried(text, prefix) ==> ReadText(data, pos, prefix).value.0 != text
  {
    hide Pow256, ReadText;
    TextRead(data, pos, prefix, text);
    if 0 !in text {
      CStrOfNulFree(text);
    } else {
      assert 0 in text && 0 !in Counted(CStr(text), prefix);
    }
  }

  lemma DateTimeBack(data: bytes, pos: nat, f: Field)
    requires f.DateTime? && Typed(f)
    requires var x := EncodeField(f); pos + |x| <= |data| && data[pos..pos + |x|] == x
    ensures |EncodeField(f)| == 8 && ReadField(DateTimeShape, data, pos) == Some((f, pos + 8))
  {
    hide LittleEndian, FromLittleEndian, Pow256, EncodeField;
    var x := EncodeField(f);
    Pow256Values();
    IntegerBack(f.year, 2);
    IntegerBack(f.seconds, 2);
    ModOfSmall(f.year, TWO_16);
    ModOfSmall(f.seconds, TWO_16);
    var middle := [f.month, f.day, f.hour, f.minute];
    DateTimeParts(f);
    SliceOfSlice(data, pos, x, 0, LittleEndian(f.year, 2));
    SliceOfSlice(data, pos, x, 2, middle);
    SliceOfSlice(data, pos, x, 6, LittleEndian(f.seconds, 2));
    FourOf(data, pos + 2, middle);
  }

  lemma DateTimeParts(f: Field)
    requires f.DateTime? && f.month < 256 && f.day < 256 && f.hour < 256 && f.minute < 256
    ensures var x, middle := EncodeField(f), [f.month, f.day, f.hour, f.minute];
            |x| == 8 && x[0..2] == LittleEndian(f.year, 2) && x[2..6] == middle && x[6..8] == LittleEndian(f.seconds, 2)
  {
    hide LittleEndian;
    OneByte(f.month);
    OneByte(f.day);
    OneByte(f.hour);
    OneByte(f.minute);
    var y, s := LittleEndian(f.year, 2), LittleEndian(f.seconds, 2);
    assert EncodeField(f) == y + [f.month, f.day, f.hour, f.minute] + s;
  }

  lemma FourOf(data: bytes, pos: nat, four: bytes)
    requires |four| == 4 && pos + 4 <= |data| && data[pos..pos + 4] == four
    ensures data[pos] == four[0] && data[pos + 1] == four[1] && data[pos + 2] == four[2] && data[pos + 3] == four[3]
  {
    var d := data[pos..pos + 4];
    assert d[0] == data[pos] && d[1] == data[pos + 1] && d[2] == data[pos + 2] && d[3] == data[pos + 3];
  }

  lemma OneByte(n: nat)
    requires n < 256
    ensures LittleEndian(n, 1) == [n]
  {
    assert LittleEndian(n / 256, 0) == [];
  }

  /** A field comes back exactly when it is sendable; one that is not sendable is read as something else. */
  lemma FieldBack(data: bytes, pos: nat, f: Field)
    requires Typed(f)
    requires var x := EncodeField(f); pos + |x| <= |data| && data[pos..pos + |x|] == x
    ensures Sendable(f) <==> (ReadField(ShapeOf(f), data, pos) == Some((f, pos + |EncodeField(f)|)))
    ensures !Sendable(f) ==> ReadField(ShapeOf(f), data, pos).Some? && ReadField(ShapeOf(f), data, pos).value.0 != f
  {
    match f
    case Integer(width, value) => IntegerRead(data, pos, width, value);
    case DateTime(_, _, _, _, _, _) => DateTimeBack(data, pos, f);
    case Text(prefix, text) => TextBack(data, pos, prefix, text);
  }

  // ------------------------------------------------------------------ lists of fields

  function EncodeFields(fields: seq<Field>): bytes {
    if fields == [] then [] else EncodeField(fields[0]) + EncodeFields(fields[1..])
  }

  function ShapesOf(fields: seq<Field>): seq<Shape> {
    seq(|fields|, i requires 0 <= i < |fields| => ShapeOf(fields[i]))
  }

  function ReadFields(shapes: seq<Shape>, data: bytes, pos: nat): Option<(seq<Field>, nat)>
    requires pos <= |data|
    decreases |shapes|
  {
    if shapes == [] then Some(([], pos))
    else
      var f := ReadField(shapes[0], data, pos);
      if f.None? then None
      else
        var rest := ReadFields(shapes[1..], data, f.value.1);
        if rest.None? then None else Some(([f.value.0] + rest.value.0, rest.value.1))
  }

  predicate AllTyped(fields: seq<Field>) {
    forall i :: 0 <= i < |fields| ==> Typed(fields[i])
  }

  predicate AllSendable(fields: seq<Field>) {
    forall i :: 0 <= i < |fields| ==> Sendable(fields[i])
  }

  /** Fields written one after another are read back, and nothing is left over, exactly when all are sendable. */
  lemma {:induction false} FieldsBack(data: bytes, pos: nat, fields: seq<Field>)
    requires AllTyped(fields)
    requires var x := EncodeFields(fields); pos + |x| == |data| && data[pos..] == x
    ensures AllSendable(fields) <==> (ReadFields(ShapesOf(fields), data, pos) == Some((fields, |data|)))
    decreases |fields|
  {
    hide EncodeField, ReadField, Typed, Sendable;
    if fields == [] {
    } else {
      var f, rest := fields[0], fields[1..];
      var x := EncodeField(f);
      assert EncodeFields(fields)[..|x|] == x && EncodeFields(fields)[|x|..] == EncodeFields(rest);
      assert data[pos..][..|x|] == data[pos..pos + |x|];
      assert data[pos..][|x|..] == data[pos + |x|..];
      assert ShapesOf(fields)[1..] == ShapesOf(rest);
      FieldBack(data, pos, f);
      FieldsBack(data, pos + |x|, rest);
      assert fields == [f] + rest;
      SplitSendable(fields);
      if Sendable(f) {
        var r := ReadFields(ShapesOf(rest), data, pos + |x|);
        assert r.Some? && [f] + r.value.0 == fields ==> r.value.0 == rest by {
          if r.Some? && [f] + r.value.0 == fields {
            assert ([f] + r.value.0)[1..] == r.value.0;
          }
        }
      } else {
        var r := ReadFields(ShapesOf(fields), data, pos);
        assert r.Some? ==> r.value.0[0] != f;
      }
    }
  }

  lemma SplitSendable(fields: seq<Field>)
    requires fields != []
    ensures AllSendable(fields) <==> Sendable(fields[0]) && AllSendable(fields[1..])
  {
    hide Sendable;
    if Sendable(fields[0]) && AllSendable(fields[1..]) {
      forall i | 0 <= i < |fields|
        ensures Sendable(fields[i])
      {
        assert i > 0 ==> fields[i] == fields[1..][i - 1];
      }
    }
  }

  // ------------------------------------------------------------------ the head

  function Word(b: bytes, at: nat): nat
    requires at + 2 <= |b|
  {
    (b[at] as nat) + 256 * (b[at + 1] as nat)
  }

  function WithWord(b: bytes, at: nat, n: nat): (r: bytes)
    requires at + 2 <= |b|
    ensures |r| == |b| && Word(r, at) == n % TWO_16
    ensures forall i :: 0 <= i < |b| && i != at && i != at + 1 ==> r[i] == b[i]
  {
    ModSplit(n, 256);
    b[at := n % 256][at + 1 := n / 256 % 256]
  }

  /** IcsMsgHead(): the name, the version, and zeros. */
  const FRESH_HEAD: bytes := [73, 67, 83, 35, 1, 1, 0, 0, 0, 0, 0, 0, 0, 0, 0, 0]

  /** setFlag: the low four bits of the first flag byte, the low two of the second; the others stay. */
  function WithFlag(b: bytes, encrypt: nat, ack: bool, needResponse: bool): (r: bytes)
    requires |b| >= HEAD
    ensures |r| == |b|
  {
    b[FLAG_AT := b[FLAG_AT] / 16 * 16 + encrypt % 16]
     [FLAG_AT + 1 := b[FLAG_AT + 1] / 4 * 4 + (if ack then 1 else 0) + (if needResponse then 2 else 0)]
  }

  function InitRequest(b: bytes, id: nat, needResponse: bool): (r: bytes)
    requires |b| >= HEAD
    ensures |r| == |b|
  {
    WithFlag(WithWord(b, ID_AT, id), 0, false, needResponse)
  }

  function InitResponse(b: bytes, id: nat, ackNum: nat): (r: bytes)
    requires |b| >= HEAD
    ensures |r| == |b|
  {
    WithWord(WithFlag(WithWord(b, ID_AT, id), 0, true, false), ACK_AT, ackNum)
  }

  predicate IsResponse(b: bytes)
    requires |b| >= HEAD
  {
    b[FLAG_AT + 1] % 2 == 1
  }

  predicate NeedsResponse(b: bytes)
    requires |b| >= HEAD
  {
    b[FLAG_AT + 1] % 4 == 2
  }

  /** Whatever the head held before, the two ways of initialising it set the id and the flags that are read back. */
  lemma HeadBack(b: bytes, id: nat, needResponse: bool, ackNum: nat)
    requires |b| >= HEAD && id < TWO_16 && ackNum < TWO_16
    ensures var q := InitRequest(b, id, needResponse);
            && Word(q, ID_AT) == id && !IsResponse(q) && NeedsResponse(q) == needResponse
            && q[HEAD..] == b[HEAD..] && q[..FLAG_AT] == b[..FLAG_AT] && q[SEND_AT..ID_AT] == b[SEND_AT..ID_AT]
    ensures var a := InitResponse(b, id, ackNum);
            && Word(a, ID_AT) == id && IsResponse(a) && !NeedsResponse(a) && Word(a, ACK_AT) == ackNum
            && a[HEAD..] == b[HEAD..] && a[..FLAG_AT] == b[..FLAG_AT] && a[SEND_AT..ACK_AT] == b[SEND_AT..ACK_AT]
  {}

  /** The bytes of a head: what the two ways of initialising it write where, and how its flags are told. */
  lemma HeadLayout(b: bytes, id: nat, needResponse: bool, ackNum: nat)
    requires |b| >= HEAD && id < TWO_16 && ackNum < TWO_16
    ensures var q, a := InitRequest(b, id, needResponse), InitResponse(b, id, ackNum);
            && HEAD == 16 && q[14] == a[14] == id % 256 && q[15] == a[15] == id / 256
            && q[9] == b[9] / 4 * 4 + (if needResponse then 2 else 0) && a[9] == b[9] / 4 * 4 + 1
            && q[8] == a[8] == b[8] / 16 * 16
            && a[12] == ackNum % 256 && a[13] == ackNum / 256
            && q[10..14] == b[10..14] && q[..8] == a[..8] == b[..8] && a[10..12] == b[10..12]
    ensures IsResponse(b) <==> b[9] % 2 == 1
    ensures NeedsResponse(b) <==> b[9] % 4 == 2
  {
    hide InitRequest, InitResponse;
    assert InitRequest(b, id, needResponse) == WithFlag(WithWord(b, ID_AT, id), 0, false, needResponse) by {
      RequestIs(b, id, needResponse);
    }
    assert InitResponse(b, id, ackNum) == WithWord(WithFlag(WithWord(b, ID_AT, id), 0, true, false), ACK_AT, ackNum) by {
      ResponseIs(b, id, ackNum);
    }
  }

  lemma RequestIs(b: bytes, id: nat, needResponse: bool)
    requires |b| >= HEAD
    ensures InitRequest(b, id, needResponse) == WithFlag(WithWord(b, ID_AT, id), 0, false, needResponse)
  {}

  lemma ResponseIs(b: bytes, id: nat, ackNum: nat)
    requires |b| >= HEAD
    ensures InitResponse(b, id, ackNum) == WithWord(WithFlag(WithWord(b, ID_AT, id), 0, true, false), ACK_AT, ackNum)
  {}

  /** The bytes of a field. */
  lemma FieldLayout(f: Field)
    requires Typed(f)
    ensures f.Integer? ==> |EncodeField(f)| == f.width
                           && forall i :: 0 <= i < f.width ==> EncodeField(f)[i] == f.value / Pow256(i) % 256
    ensures f.DateTime? ==> EncodeField(f) == [f.year % 256, f.year / 256, f.month, f.day, f.hour, f.minute,
                                               f.seconds % 256, f.seconds / 256]
    ensures f.Text? && f.prefix == 1 ==> EncodeField(f) == [|CStr(f.text)| % 256] + CStr(f.text)
    ensures f.Text? && f.prefix == 2 ==>
              EncodeField(f) == [|CStr(f.text)| % 256, |CStr(f.text)| / 256 % 256] + CStr(f.text)
  {
    hide CStr, LittleEndian;
    match f
    case Integer(width, value) =>
      forall i | 0 <= i < width
        ensures EncodeField(f)[i] == value / Pow256(i) % 256
      {
        LittleEndianDigits(value, width, i);
      }
    case DateTime(year, month, day, hour, minute, seconds) =>
      DateTimeParts(f);
      TwoBytes(year);
      TwoBytes(seconds);
      var x := EncodeField(f);
      assert x == x[0..2] + x[2..6] + x[6..8];
    case Text(prefix, text) =>
      OneByteOf(|CStr(text)|);
      TwoBytes(|CStr(text)|);
  }

  lemma OneByteOf(n: nat)
    ensures LittleEndian(n, 1) == [n % 256]
  {
    assert LittleEndian(n / 256, 0) == [];
  }

  lemma TwoBytes(n: nat)
    ensures LittleEndian(n, 2) == [n % 256, n / 256 % 256]
  {
    OneByteOf(n / 256);
  }

  // ------------------------------------------------------------------ framing

  /** serialize, on what has been written so far: nothing when the checksum does not fit. */
  function Serialize(written: bytes, sendNum: nat, capacity: nat, crc: Checksum): Option<bytes>
    requires |written| >= HEAD
  {
    var head := WithWord(WithWord(written, SEND_AT, sendNum), LENGTH_AT, |written| + CRC);
    if |written| + CRC > capacity then None else Some(head + LittleEndian(crc(head), CRC))
  }

  /** IcsMsgHead::verify on a received message. */
  predicate Verify(packet: bytes, crc: Checksum) {
    && |packet| >= HEAD + CRC
    && packet[..4] == NAME
    && Word(packet, VERSION_AT) == PROTOCOL_VERSION
    && Word(packet, LENGTH_AT) == |packet|
    && FromLittleEndian(packet[|packet| - CRC..]) == crc(packet[..|packet| - CRC])
  }

  /** A message is accepted for its name, version, length and checksum alone. */
  lemma VerifyIs(packet: bytes, crc: Checksum)
    ensures Verify(packet, crc)
       <==> && |packet| >= 20 && packet[..4] == Ascii("ICS#") && packet[4] == 1 && packet[5] == 1
            && (packet[6] as int) + 256 * (packet[7] as int) == |packet|
            && crc(packet[..|packet| - 4]) == FromLittleEndian(packet[|packet| - 4..])
  {
    assert Ascii("ICS#") == NAME;
  }

  /** The bytes of a message that is sent: where number, length and checksum stand, and what is as it was written. */
  lemma PacketLayout(written: bytes, sendNum: nat, capacity: nat, crc: Checksum)
    requires |written| >= HEAD && |written| + 4 < TWO_16
    ensures Serialize(written, sendNum, capacity, crc).Some? <==> |written| + 4 <= capacity
    ensures |written| + 4 <= capacity ==>
              var p, n := Serialize(written, sendNum, capacity, crc).value, |written|;
              && |p| == n + 4 && p[..6] == written[..6] && p[8..10] == written[8..10] && p[12..n] == written[12..]
              && p[6] == |p| % 256 && p[7] == |p| / 256
              && p[10] == sendNum % 256 && p[11] == sendNum / 256 % 256
              && FromLittleEndian(p[n..]) == crc(p[..n])
  {
    if |written| + 4 <= capacity {
      var n := |written|;
      var head := WithWord(WithWord(written, SEND_AT, sendNum), LENGTH_AT, n + CRC);
      var p := Serialize(written, sendNum, capacity, crc).value;
      assert p[..n] == head && p[n..] == LittleEndian(crc(head), CRC);
      Pow256Values();
      IntegerBack(crc(head), CRC);
      ModOfSmall(crc(head), TWO_32);
      assert p[..6] == head[..6] == written[..6];
      assert p[8..10] == head[8..10] == written[8..10];
      assert p[12..n] == head[12..n] == written[12..];
    }
  }

  /** A serialized message verifies, for every checksum function, exactly when its length fits in 16 bits. */
  lemma SerializedVerifies(written: bytes, sendNum: nat, capacity: nat, crc: Checksum)
    requires |written| >= HEAD && written[..LENGTH_AT] == FRESH_HEAD[..LENGTH_AT]
    requires |written| + CRC <= capacity
    ensures var packet := Serialize(written, sendNum, capacity, crc).value;
            && |packet| == |written| + CRC
            && packet[HEAD..|written|] == written[HEAD..] && packet[FLAG_AT..SEND_AT] == written[FLAG_AT..SEND_AT]
            && packet[ACK_AT..HEAD] == written[ACK_AT..HEAD]
            && (Verify(packet, crc) <==> |written| + CRC < TWO_16)
  {
    var head := WithWord(WithWord(written, SEND_AT, sendNum), LENGTH_AT, |written| + CRC);
    var packet := Serialize(written, sendNum, capacity, crc).value;
    var n := |written|;
    assert packet[..n] == head && packet[n..] == LittleEndian(crc(head), CRC);
    Pow256Values();
    IntegerBack(crc(head), CRC);
    ModOfSmall(crc(head), TWO_32);
    assert forall i :: 0 <= i < LENGTH_AT ==> packet[i] == head[i] == written[..LENGTH_AT][i];
    assert packet[..4] == NAME;
    assert packet[4] == 1 && packet[5] == 1;
    assert packet[6] == head[6] && packet[7] == head[7];
    ModAtMost(n + CRC, TWO_16);
  }

  /**
   Fields written into a message, framed, verified and read back: the message verifies exactly when its length fits,
   and then every field comes back with nothing left over exactly when all of them are sendable.
   */
  lemma FramedRoundTrip(fields: seq<Field>, id: nat, needResponse: bool, sendNum: nat, capacity: nat, crc: Checksum)
    requires AllTyped(fields) && id < TWO_16
    requires HEAD + |EncodeFields(fields)| + CRC <= capacity
    ensures var written := InitRequest(FRESH_HEAD, id, needResponse) + EncodeFields(fields);
            var packet := Serialize(written, sendNum, capacity, crc).value;
            var data := packet[..|packet| - CRC];
            && (Verify(packet, crc) <==> HEAD + |EncodeFields(fields)| + CRC < TWO_16)
            && Word(packet, ID_AT) == id && !IsResponse(packet) && NeedsResponse(packet) == needResponse
            && (AllSendable(fields) <==> (ReadFields(ShapesOf(fields), data, HEAD) == Some((fields, |data|))))
  {
    hide Verify, ReadFields, EncodeFields, ShapesOf, InitRequest;
    var head := InitRequest(FRESH_HEAD, id, needResponse);
    var written := head + EncodeFields(fields);
    HeadBack(FRESH_HEAD, id, needResponse, 0);
    assert written[..LENGTH_AT] == head[..FLAG_AT][..LENGTH_AT] == FRESH_HEAD[..FLAG_AT][..LENGTH_AT];
    SerializedVerifies(written, sendNum, capacity, crc);
    var packet := Serialize(written, sendNum, capacity, crc).value;
    var data := packet[..|packet| - CRC];
    assert data[HEAD..] == packet[HEAD..|written|] == written[HEAD..] == EncodeFields(fields);
    assert packet[FLAG_AT + 1] == packet[FLAG_AT..SEND_AT][1] == written[FLAG_AT..SEND_AT][1] == head[FLAG_AT + 1];
    assert packet[ID_AT] == packet[ACK_AT..HEAD][2] == written[ACK_AT..HEAD][2] == head[ID_AT];
    assert packet[ID_AT + 1] == packet[ACK_AT..HEAD][3] == written[ACK_AT..HEAD][3] == head[ID_AT + 1];
    FieldsBack(data, HEAD, fields);
  }
}
