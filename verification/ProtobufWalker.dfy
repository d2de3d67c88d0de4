/** The minimal walker over Protocol Buffers messages. */
module ProtobufWalker {
  import Counting
  import opened Outcomes

  type Byte = b: nat | b < 256

  /** The constructor stands for the wire type: 0, 1, 2 and 5. */
  datatype Value = Varint(n: nat) | Fixed64(n: nat) | Bytes(data: seq<Byte>) | Fixed32(n: nat)

  datatype Field = Field(number: nat, value: Value)

  datatype WalkError = MultiByteTag | Truncated | UnsupportedWire(wire: nat)

  function Wire(value: Value): nat {
    match value
    case Varint(_) => 0
    case Fixed64(_) => 1
    case Bytes(_) => 2
    case Fixed32(_) => 5
  }

  // ----- the wire format -----

  /** Base-128 digits, the least significant first, every byte but the last marked; leading zeros allowed. */
  ghost predicate EncodesVarint(n: nat, bytes: seq<Byte>) {
    bytes != []
    && if |bytes| == 1 then bytes[0] == n && n < 128
       else bytes[0] >= 128 && n % 128 == bytes[0] - 128 && EncodesVarint(n / 128, bytes[1..])
  }

  function LittleEndian(bytes: seq<Byte>): nat {
    if bytes == [] then 0 else bytes[0] + 256 * LittleEndian(bytes[1..])
  }

  ghost predicate EncodesValue(value: Value, bytes: seq<Byte>) {
    match value
    case Varint(n) => EncodesVarint(n, bytes)
    case Fixed64(n) => |bytes| == 8 && LittleEndian(bytes) == n
    case Fixed32(n) => |bytes| == 4 && LittleEndian(bytes) == n
    case Bytes(data) => exists k: nat | k <= |bytes| :: EncodesVarint(|data|, bytes[..k]) && bytes[k..] == data
  }

  ghost predicate EncodesField(f: Field, bytes: seq<Byte>) {
    f.number < 16 && bytes != [] && bytes[0] == 8 * f.number + Wire(f.value) && EncodesValue(f.value, bytes[1..])
  }

  /** One piece of the message for each field. */
  ghost predicate Encodes(fields: seq<Field>, message: seq<Byte>)
    decreases |fields|
  {
    if fields == [] then message == []
    else exists k: nat | k <= |message| :: EncodesField(fields[0], message[..k]) && Encodes(fields[1..], message[k..])
  }

  // ----- reading -----

  /** A varint and its length; None when the bytes end first. */
  function ReadVarint(bytes: seq<Byte>): (r: Option<(nat, nat)>)
    ensures r.Some? ==> 0 < r.value.1 <= |bytes|
    decreases |bytes|
  {
    if bytes == [] then None
    else if bytes[0] < 128 then Some((bytes[0], 1))
    else
      match ReadVarint(bytes[1..])
      case None => None
      case Some((v, k)) => Some((bytes[0] - 128 + 128 * v, k + 1))
  }

  /** The part of the bytes a Python slice `bytes[i:j]` gives. */
  function Slice(bytes: seq<Byte>, i: nat, j: nat): seq<Byte>
    requires i <= j
  {
    bytes[Counting.Min(i, |bytes|)..Counting.Min(j, |bytes|)]
  }

  /** The next field and the position after it, which is past the end when its last bytes are missing. */
  function ReadField(bytes: seq<Byte>): (r: Result<(Field, nat), WalkError>)
    requires bytes != []
    ensures r.Ok? ==> r.value.1 > 0
  {
    if bytes[0] >= 128 then Err(MultiByteTag)
    else
      var (number, wire) := (bytes[0] / 8, bytes[0] % 8);
      if wire == 0 then
        match ReadVarint(bytes[1..])
        case None => Err(Truncated)
        case Some((v, k)) => Ok((Field(number, Varint(v)), 1 + k))
      else if wire == 1 then Ok((Field(number, Fixed64(LittleEndian(Slice(bytes, 1, 9)))), 9))
      else if wire == 5 then Ok((Field(number, Fixed32(LittleEndian(Slice(bytes, 1, 5)))), 5))
      else if wire == 2 then
        match ReadVarint(bytes[1..])
        case None => Err(Truncated)
        case Some((v, k)) => Ok((Field(number, Bytes(Slice(bytes, 1 + k, 1 + k + v))), 1 + k + v))
      else Err(UnsupportedWire(wire))
  }

  datatype Walked = Walked(fields: seq<Field>, error: Option<WalkError>)

  /** The fields given out before the end, or before the error. */
  function Walk(bytes: seq<Byte>): Walked
    decreases |bytes|
  {
    if bytes == [] then Walked([], None)
    else
      match ReadField(bytes)
      case Err(e) => Walked([], Some(e))
      case Ok((f, next)) =>
        var rest := Walk(bytes[Counting.Min(next, |bytes|)..]);
        Walked([f] + rest.fields, rest.error)
  }

  /** Every field is all there. */
  predicate Complete(bytes: seq<Byte>)
    decreases |bytes|
  {
    bytes == []
        || (ReadField(bytes).Ok? && ReadField(bytes).value.1 <= |bytes| && Complete(bytes[ReadField(bytes).value.1..]))
  }

  // ----- the loops of the walker -----

  function Pow2(n: nat): (p: nat)
    ensures p > 0
  {
    if n == 0 then 1 else 2 * Pow2(n - 1)
  }

  lemma Pow2Of7(n: nat)
    ensures Pow2(n + 7) == 128 * Pow2(n)
  {
    assert Pow2(n + 7) == 2 * Pow2(n + 6);
    assert Pow2(n + 6) == 2 * Pow2(n + 5);
    assert Pow2(n + 5) == 2 * Pow2(n + 4);
    assert Pow2(n + 4) == 2 * Pow2(n + 3);
    assert Pow2(n + 3) == 2 * Pow2(n + 2);
    assert Pow2(n + 2) == 2 * Pow2(n + 1);
  }

  /** The value so far and its scale, and the varint still to read. */
  ghost predicate VarintTo(buf: seq<Byte>, start: nat, i: nat, v: nat, scale: nat)
    requires start <= i <= |buf|
  {
    ReadVarint(buf[start..]) ==
    match ReadVarint(buf[i..])
    case None => None
    case Some((w, k)) => Some((v + scale * w, i - start + k))
  }

  lemma VarintStep(buf: seq<Byte>, start: nat, i: nat, v: nat, scale: nat)
    requires start <= i <= |buf| && VarintTo(buf, start, i, v, scale)
    ensures if i == |buf| then ReadVarint(buf[start..]).None?
            else if buf[i] < 128 then ReadVarint(buf[start..]) == Some((v + buf[i] % 128 * scale, i + 1 - start))
            else VarintTo(buf, start, i + 1, v + buf[i] % 128 * scale, 128 * scale)
  {
    if i < |buf| {
      assert buf[i..][1..] == buf[i + 1..];
      if buf[i] < 128 {
        assert buf[i] % 128 == buf[i] && scale * buf[i] == buf[i] * scale;
      } else {
        VarintGoesOn(buf, start, i, v, scale, buf[i] - 128);
      }
    }
  }

  lemma VarintGoesOn(buf: seq<Byte>, start: nat, i: nat, v: nat, scale: nat, group: nat)
    requires start <= i < |buf| && VarintTo(buf, start, i, v, scale) && buf[i] == group + 128
    ensures VarintTo(buf, start, i + 1, v + group * scale, 128 * scale)
  {
    assert buf[i..][1..] == buf[i + 1..];
    if ReadVarint(buf[i + 1..]).Some? {
      NextGroup(v, scale, group, ReadVarint(buf[i + 1..]).value.0);
    }
  }

  lemma NextGroup(v: nat, scale: nat, group: nat, w: nat)
    ensures v + scale * (group + 128 * w) == v + group * scale + (128 * scale) * w
  {
    assert scale * (group + 128 * w) == scale * group + scale * (128 * w);
  }

  lemma GroupFits(v: nat, scale: nat, group: nat)
    requires v < scale && group < 128
    ensures v + group * scale < 128 * scale
  {
    assert group * scale <= 127 * scale;
  }

  /** Bitwise or of unbounded integers. */
  function Or(a: nat, b: nat): nat
    decreases a + b
  {
    if a == 0 && b == 0 then 0 else (if a % 2 == 1 || b % 2 == 1 then 1 else 0) + 2 * Or(a / 2, b / 2)
  }

  lemma {:induction false} OrZero(b: nat)
    ensures Or(0, b) == b
  {
    if b > 0 {
      OrZero(b / 2);
    }
  }

  /** Setting bits above those of a number adds them. */
  lemma {:induction false} OrAdds(a: nat, b: nat, n: nat)
    requires a < Pow2(n)
    ensures Or(a, b * Pow2(n)) == a + b * Pow2(n)
  {
    if n == 0 {
      OrZero(b);
    } else {
      var half := b * Pow2(n - 1);
      assert b * Pow2(n) == 2 * half;
      OrAdds(a / 2, b, n - 1);
    }
  }

  /** The loop shifts each group of seven bits into place and sets its bits in the value so far. */
  method VarintAt(buf: seq<Byte>, start: nat) returns (r: Option<(nat, nat)>)
    requires start <= |buf|
    ensures r == ReadVarint(buf[start..])
    ensures r.Some? ==> r.value.0 < Pow2(7 * r.value.1)
  {
    hide ReadVarint, VarintTo, Pow2, Or;
    var i: nat, v: nat, shift: nat := start, 0, 0;
    VarintBegins(buf, start);
    while true
      invariant start <= i <= |buf| && shift == 7 * (i - start) && v < Pow2(shift)
      invariant VarintTo(buf, start, i, v, Pow2(shift))
      decreases |buf| - i
    {
      VarintStep(buf, start, i, v, Pow2(shift));
      if i >= |buf| {
        return None;
      }
      var b := buf[i];
      Pow2Of7(shift);
      GroupFits(v, Pow2(shift), b % 128);
      OrAdds(v, b % 128, shift);
      i, v := i + 1, Or(v, b % 128 * Pow2(shift));
      if b < 128 {
        return Some((v, i - start));
      }
      shift := shift + 7;
    }
  }

  lemma VarintBegins(buf: seq<Byte>, start: nat)
    requires start <= |buf|
    ensures Pow2(0) == 1 && VarintTo(buf, start, start, 0, 1)
  {
  }

  /** One turn of the walker's loop. */
  method FieldAt(buf: seq<Byte>, start: nat) returns (r: Result<(Field, nat), WalkError>)
    requires start < |buf|
    ensures r == ReadField(buf[start..])
  {
    hide ReadVarint, LittleEndian;
    var i, tag := start + 1, buf[start];
    assert buf[start..][1..] == buf[i..];
    if tag >= 128 {
      return Err(MultiByteTag);
    }
    var number, wire := tag / 8, tag % 8;
    if wire == 0 {
      var read := VarintAt(buf, i);
      r := if read.None? then Err(Truncated) else Ok((Field(number, Varint(read.value.0)), 1 + read.value.1));
    } else if wire == 1 {
      SliceOfRest(buf, start, 1, 9);
      r := Ok((Field(number, Fixed64(LittleEndian(Slice(buf, i, i + 8)))), 9));
    } else if wire == 5 {
      SliceOfRest(buf, start, 1, 5);
      r := Ok((Field(number, Fixed32(LittleEndian(Slice(buf, i, i + 4)))), 5));
    } else if wire == 2 {
      var read := VarintAt(buf, i);
      if read.None? {
        return Err(Truncated);
      }
      i := i + read.value.1;
      SliceOfRest(buf, start, i - start, i - start + read.value.0);
      r := Ok((Field(number, Bytes(Slice(buf, i, i + read.value.0))), i - start + read.value.0));
    } else {
      r := Err(UnsupportedWire(wire));
    }
  }

  function From(buf: seq<Byte>, i: nat): seq<Byte> { buf[Counting.Min(i, |buf|)..] }

  lemma Associates<T>(a: seq<T>, b: seq<T>, c: seq<T>)
    ensures (a + b) + c == a + (b + c)
  {
  }

  /** The fields so far, and the walk still to go. */
  ghost predicate WalkedTo(buf: seq<Byte>, fields: seq<Field>, i: nat) {
    Walk(buf) == Walked(fields + Walk(From(buf, i)).fields, Walk(From(buf, i)).error)
  }

  lemma WalkStep(buf: seq<Byte>, fields: seq<Field>, i: nat)
    requires i < |buf| && WalkedTo(buf, fields, i)
    ensures match ReadField(buf[i..])
            case Err(e) => Walk(buf) == Walked(fields, Some(e))
            case Ok((f, next)) => WalkedTo(buf, fields + [f], i + next)
  {
    hide ReadField;
    var here := buf[i..];
    assert From(buf, i) == here;
    match ReadField(here)
    case Err(_) =>
      assert fields + [] == fields;
    case Ok((f, next)) =>
      assert From(here, next) == From(buf, i + next);
      Associates(fields, [f], Walk(From(buf, i + next)).fields);
  }

  method ParseFields(buf: seq<Byte>) returns (r: Walked)
    ensures r == Walk(buf)
  {
    hide Walk, ReadField, WalkedTo;
    var fields: seq<Field>, i: nat := [], 0;
    WalkBegins(buf);
    while i < |buf|
      invariant WalkedTo(buf, fields, i)
      decreases |buf| - i
    {
      WalkStep(buf, fields, i);
      var read := FieldAt(buf, i);
      if read.Err? {
        return Walked(fields, Some(read.error));
      }
      fields, i := fields + [read.value.0], i + read.value.1;
    }
    WalkEnds(buf, fields, i);
    r := Walked(fields, None);
  }

  lemma WalkBegins(buf: seq<Byte>)
    ensures WalkedTo(buf, [], 0)
  {
    assert From(buf, 0) == buf && [] + Walk(buf).fields == Walk(buf).fields;
  }

  lemma WalkEnds(buf: seq<Byte>, fields: seq<Field>, i: nat)
    requires i >= |buf| && WalkedTo(buf, fields, i)
    ensures Walk(buf) == Walked(fields, None)
  {
    assert From(buf, i) == [];
  }

  lemma SliceOfRest(buf: seq<Byte>, at: nat, i: nat, j: nat)
    requires at <= |buf| && i <= j
    ensures Slice(buf[at..], i, j) == Slice(buf, at + i, at + j)
  {
  }

  // ----- what the walker gives out is what the wire format says -----

  /** A varint read is the bytes' only reading. */
  lemma {:induction false} ReadVarintIff(bytes: seq<Byte>, n: nat, k: nat)
    requires k <= |bytes|
    ensures ReadVarint(bytes) == Some((n, k)) <==> EncodesVarint(n, bytes[..k])
    decreases |bytes|
  {
    if k > 0 && bytes[0] >= 128 {
      ReadVarintIff(bytes[1..], n / 128, k - 1);
      assert bytes[..k][1..] == bytes[1..][..k - 1];
      VarintGroup(bytes[0], n);
    }
  }

  lemma VarintGroup(b: Byte, n: nat)
    requires b >= 128
    ensures forall v: nat :: n == b - 128 + 128 * v <==> n % 128 == b - 128 && n / 128 == v
  {
  }

  lemma ReadBytesIff(bytes: seq<Byte>, data: seq<Byte>, next: nat)
    requires 0 < next <= |bytes|
    ensures EncodesValue(Bytes(data), bytes[1..next])
       <==> exists k: nat ::
           ReadVarint(bytes[1..]) == Some((|data|, k)) && next == 1 + k + |data| && data == bytes[1 + k..next]
  {
    var rest, piece := bytes[1..], bytes[1..next];
    if EncodesValue(Bytes(data), piece) {
      var k: nat :| k <= |piece| && EncodesVarint(|data|, piece[..k]) && piece[k..] == data;
      assert piece[..k] == rest[..k] && piece[k..] == bytes[1 + k..next];
      ReadVarintIff(rest, |data|, k);
      assert ReadVarint(rest) == Some((|data|, k));
    }
    if k: nat :| ReadVarint(rest) == Some((|data|, k)) && next == 1 + k + |data| && data == bytes[1 + k..next] {
      ReadVarintIff(rest, |data|, k);
      assert piece[..k] == rest[..k] && piece[k..] == data;
    }
  }

  /** Every field that is all there is read as what it encodes, and nothing else is. */
  lemma ReadFieldIff(bytes: seq<Byte>, f: Field, next: nat)
    requires bytes != [] && next <= |bytes|
    ensures ReadField(bytes) == Ok((f, next)) <==> EncodesField(f, bytes[..next])
  {
    hide ReadVarint, EncodesVarint, LittleEndian;
    if next > 0 {
      var piece := bytes[..next];
      assert piece[1..] == bytes[1..next] && piece[0] == bytes[0];
      match f.value
      case Varint(n) =>
        ReadVarintIff(bytes[1..], n, next - 1);
        assert bytes[1..][..next - 1] == bytes[1..next];
      case Fixed64(n) =>
      case Fixed32(n) =>
      case Bytes(data) =>
        ReadBytesIff(bytes, data, next);
    }
  }

  lemma {:induction false} WalkedIsEncoded(message: seq<Byte>, fields: seq<Field>)
    requires Walk(message) == Walked(fields, None) && Complete(message)
    ensures Encodes(fields, message)
    decreases |message|
  {
    hide ReadField, EncodesField;
    if message != [] {
      var (f, next) := ReadField(message).value;
      ReadFieldIff(message, f, next);
      WalkedIsEncoded(message[next..], fields[1..]);
      assert EncodesField(fields[0], message[..next]) && Encodes(fields[1..], message[next..]);
    }
  }

  lemma WalkOne(message: seq<Byte>, f: Field, next: nat)
    requires 0 < next <= |message| && ReadField(message) == Ok((f, next))
    ensures Walk(message) == Walked([f] + Walk(message[next..]).fields, Walk(message[next..]).error)
    ensures Complete(message) == Complete(message[next..])
  {
  }

  lemma {:induction false} EncodedIsWalked(message: seq<Byte>, fields: seq<Field>)
    requires Encodes(fields, message)
    ensures Walk(message) == Walked(fields, None) && Complete(message)
    decreases |fields|
  {
    hide ReadField, EncodesField;
    if fields != [] {
      var k: nat :| k <= |message| && EncodesField(fields[0], message[..k]) && Encodes(fields[1..], message[k..]);
      NotEmpty(fields[0], message[..k]);
      ReadFieldIff(message, fields[0], k);
      EncodedIsWalked(message[k..], fields[1..]);
      WalkOne(message, fields[0], k);
      assert fields == [fields[0]] + fields[1..];
    }
  }

  /** The walker gives out a list of fields, all there, from exactly the messages that encode it. */
  lemma WalkIff(message: seq<Byte>, fields: seq<Field>)
    ensures Walk(message) == Walked(fields, None) && Complete(message) <==> Encodes(fields, message)
  {
    hide Walk, Complete, Encodes;
    if Encodes(fields, message) {
      EncodedIsWalked(message, fields);
    }
    if Walk(message) == Walked(fields, None) && Complete(message) {
      WalkedIsEncoded(message, fields);
    }
  }

  lemma NotEmpty(f: Field, bytes: seq<Byte>)
    requires EncodesField(f, bytes)
    ensures bytes != []
  {
  }

  // ----- concatenation -----

  lemma {:induction false} VarintPrefix(a: seq<Byte>, b: seq<Byte>)
    requires ReadVarint(a).Some?
    ensures ReadVarint(a + b) == ReadVarint(a)
    decreases |a|
  {
    assert (a + b)[1..] == a[1..] + b;
    if a[0] >= 128 {
      VarintPrefix(a[1..], b);
    }
  }

  lemma FieldPrefix(a: seq<Byte>, b: seq<Byte>)
    requires a != [] && ReadField(a).Ok? && ReadField(a).value.1 <= |a|
    ensures ReadField(a + b) == ReadField(a)
  {
    assert (a + b)[1..] == a[1..] + b;
    if ReadVarint(a[1..]).Some? {
      VarintPrefix(a[1..], b);
    }
    forall i: nat, j: nat | i <= j <= |a|
      ensures Slice(a + b, i, j) == Slice(a, i, j)
    {
    }
  }

  /** Messages that are all there walk one after the other. */
  lemma {:induction false} WalkConcat(a: seq<Byte>, b: seq<Byte>)
    requires Complete(a)
    ensures Walk(a).error.None?
    ensures Walk(a + b) == Walked(Walk(a).fields + Walk(b).fields, Walk(b).error)
    decreases |a|
  {
    hide ReadField;
    if a == [] {
      assert a + b == b && [] + Walk(b).fields == Walk(b).fields;
    } else {
      var (f, next) := ReadField(a).value;
      FieldPrefix(a, b);
      assert (a + b)[next..] == a[next..] + b;
      var first, second := Walk(a[next..]).fields, Walk(b).fields;
      WalkConcat(a[next..], b);
      assert ([f] + first) + second == [f] + (first + second);
    }
  }

  // ----- messages that are cut off -----

  function Zeros(n: nat): (bytes: seq<Byte>)
    ensures |bytes| == n
  {
    seq(n, i => 0)
  }

  lemma {:induction false} ZerosAdded(bytes: seq<Byte>, n: nat)
    ensures LittleEndian(bytes + Zeros(n)) == LittleEndian(bytes)
  {
    if bytes != [] {
      assert (bytes + Zeros(n))[1..] == bytes[1..] + Zeros(n);
      ZerosAdded(bytes[1..], n);
    } else if n > 0 {
      assert bytes + Zeros(n) == Zeros(n) && Zeros(n)[1..] == [] + Zeros(n - 1);
      ZerosAdded([], n - 1);
    }
  }

  /** What a value that was read without its last `n` bytes is with zeros for them. */
  ghost predicate ZeroFilled(cut: Value, whole: Value, n: nat) {
    match cut
    case Varint(_) => false
    case Bytes(data) => whole == Bytes(data + Zeros(n))
    case _ => whole == cut
  }

  lemma {:induction false} LastBytes(bytes: seq<Byte>, i: nat, j: nat)
    requires i <= j && j > |bytes| && i <= |bytes|
    ensures Slice(bytes, i, j) == bytes[i..]
    ensures Slice(bytes + Zeros(j - |bytes|), i, j) == bytes[i..] + Zeros(j - |bytes|)
  {
  }

  /** A field whose last bytes are missing is read as the field with zeros for them, the zeros left out. */
  lemma FieldCompleted(bytes: seq<Byte>, f: Field, next: nat)
    requires bytes != [] && ReadField(bytes) == Ok((f, next)) && next > |bytes|
    ensures var n := next - |bytes|; var whole := ReadField(bytes + Zeros(n));
            whole.Ok? && whole.value.1 == next
            && whole.value.0.number == f.number && ZeroFilled(f.value, whole.value.0.value, n)
  {
    hide ReadVarint, LittleEndian, Slice;
    var n := next - |bytes|;
    var rest := Zeros(n);
    assert (bytes + rest)[1..] == bytes[1..] + rest;
    var wire := bytes[0] % 8;
    if wire == 1 || wire == 5 {
      LastBytes(bytes, 1, next);
      ZerosAdded(bytes[1..], n);
    } else {
      VarintPrefix(bytes[1..], rest);
      var (v, k) := ReadVarint(bytes[1..]).value;
      if wire == 2 {
        LastBytes(bytes, 1 + k, next);
      }
    }
  }

  /** The two lists have the same fields up to the last, and the first list has that without its last bytes. */
  ghost predicate SameButLast(a: seq<Field>, b: seq<Field>, n: nat) {
    && |a| == |b| > 0 && a[..|a| - 1] == b[..|b| - 1]
    && a[|a| - 1].number == b[|b| - 1].number && ZeroFilled(a[|a| - 1].value, b[|b| - 1].value, n)
  }

  lemma SameButLastAfter(f: Field, a: seq<Field>, b: seq<Field>, n: nat)
    requires SameButLast(a, b, n)
    ensures SameButLast([f] + a, [f] + b, n)
  {
    assert ([f] + a)[..|a|] == [f] + a[..|a| - 1] && ([f] + b)[..|b|] == [f] + b[..|b| - 1];
  }

  /** A message that is walked without an error and is not all there is a whole message cut off within
      its last field. */
  lemma {:induction false} CutOff(message: seq<Byte>) returns (rest: seq<Byte>)
    requires Walk(message).error.None? && !Complete(message)
    ensures rest != [] && rest == Zeros(|rest|) && Complete(message + rest)
    ensures SameButLast(Walk(message).fields, Walk(message + rest).fields, |rest|)
    decreases |message|
  {
    hide ReadField;
    var (f, next) := ReadField(message).value;
    if next > |message| {
      rest := Zeros(next - |message|);
      FieldCompleted(message, f, next);
      OnlyField(message, f, next);
      OnlyField(message + rest, ReadField(message + rest).value.0, next);
    } else {
      var tail := CutOff(message[next..]);
      rest := tail;
      FieldPrefix(message, rest);
      assert (message + rest)[next..] == message[next..] + rest;
      WalkOne(message, f, next);
      WalkOne(message + rest, f, next);
      SameButLastAfter(f, Walk(message[next..]).fields, Walk(message[next..] + rest).fields, |rest|);
    }
  }

  lemma OnlyField(message: seq<Byte>, f: Field, next: nat)
    requires message != [] && ReadField(message) == Ok((f, next)) && next >= |message|
    ensures Walk(message) == Walked([f], None) && (next == |message| ==> Complete(message))
  {
    hide ReadField;
    assert message[Counting.Min(next, |message|)..] == [];
  }

  // ----- errors -----

  lemma {:induction false} NoVarint(bytes: seq<Byte>)
    ensures ReadVarint(bytes).None? <==> forall i | 0 <= i < |bytes| :: bytes[i] >= 128
    decreases |bytes|
  {
    if bytes != [] && bytes[0] >= 128 {
      NoVarint(bytes[1..]);
      assert forall i | 1 <= i < |bytes| :: bytes[1..][i - 1] == bytes[i];
    }
  }

  /** A tag of more than one byte, a kind that does not exist, or a varint whose last byte is missing. */
  ghost predicate StartsWithError(bytes: seq<Byte>, e: WalkError) {
    && bytes != []
    && match e
       case MultiByteTag => bytes[0] >= 128
       case UnsupportedWire(wire) => bytes[0] < 128 && wire == bytes[0] % 8 && wire in {3, 4, 6, 7}
       case Truncated => bytes[0] < 128 && bytes[0] % 8 in {0, 2} && forall i | 1 <= i < |bytes| :: bytes[i] >= 128
  }

  lemma ReadErrorIff(bytes: seq<Byte>, e: WalkError)
    requires bytes != []
    ensures ReadField(bytes) == Err(e) <==> StartsWithError(bytes, e)
  {
    hide ReadVarint, LittleEndian, Slice;
    NoVarint(bytes[1..]);
    assert forall i | 1 <= i < |bytes| :: bytes[1..][i - 1] == bytes[i];
  }

  /** The message is whole up to `k`, and there an error begins. */
  ghost predicate ErrorAt(message: seq<Byte>, e: WalkError, k: nat) {
    k <= |message| && Complete(message[..k]) && StartsWithError(message[k..], e)
  }

  lemma {:induction false} ErrorPlace(message: seq<Byte>, e: WalkError) returns (k: nat)
    requires Walk(message).error == Some(e)
    ensures ErrorAt(message, e, k)
    decreases |message|
  {
    hide ReadField, StartsWithError;
    ReadErrorIff(message, e);
    if ReadField(message).Err? {
      k := 0;
      assert message[0..] == message;
    } else {
      var (f, next) := ReadField(message).value;
      var rest := message[Counting.Min(next, |message|)..];
      assert rest != [] && next <= |message|;
      k := ErrorPlace(rest, e);
      var whole := message[..next + k];
      ReadFieldIff(message, f, next);
      ReadFieldIff(whole, f, next);
      assert whole[..next] == message[..next] && whole[next..] == rest[..k];
      assert message[next + k..] == rest[k..];
      k := next + k;
    }
  }

  /** The walk ends in an error exactly if after some whole fields there is what makes that error. */
  lemma WalkErrorIff(message: seq<Byte>, e: WalkError)
    ensures Walk(message).error == Some(e) <==> exists k: nat :: ErrorAt(message, e, k)
    ensures forall k: nat | ErrorAt(message, e, k) :: Walk(message).fields == Walk(message[..k]).fields
  {
    hide ReadField, StartsWithError;
    if Walk(message).error == Some(e) {
      var k := ErrorPlace(message, e);
    }
    forall k: nat | ErrorAt(message, e, k)
      ensures Walk(message) == Walked(Walk(message[..k]).fields, Some(e))
    {
      NotEmptyError(message[k..], e);
      ReadErrorIff(message[k..], e);
      WalkConcat(message[..k], message[k..]);
      assert message[..k] + message[k..] == message;
    }
  }

  lemma NotEmptyError(bytes: seq<Byte>, e: WalkError)
    requires StartsWithError(bytes, e)
    ensures bytes != []
  {
  }

  // ----- an encoder -----

  function VarintBytes(n: nat): (bytes: seq<Byte>) {
    if n < 128 then [n] else [n % 128 + 128] + VarintBytes(n / 128)
  }

  function FixedBytes(n: nat, width: nat): (bytes: seq<Byte>)
    ensures |bytes| == width
  {
    if width == 0 then [] else [n % 256] + FixedBytes(n / 256, width - 1)
  }

  function ValueBytes(value: Value): seq<Byte> {
    match value
    case Varint(n) => VarintBytes(n)
    case Fixed64(n) => FixedBytes(n, 8)
    case Fixed32(n) => FixedBytes(n, 4)
    case Bytes(data) => VarintBytes(|data|) + data
  }

  predicate Encodable(f: Field) {
    && 1 <= f.number < 16
    && (f.value.Fixed64? ==> f.value.n < 0x1_0000_0000_0000_0000)
    && (f.value.Fixed32? ==> f.value.n < 0x1_0000_0000)
  }

  function Tag(f: Field): Byte
    requires Encodable(f)
  {
    8 * f.number + Wire(f.value)
  }

  function Encode(fields: seq<Field>): seq<Byte>
    requires forall f | f in fields :: Encodable(f)
  {
    if fields == [] then []
    else [Tag(fields[0])] + ValueBytes(fields[0].value) + Encode(fields[1..])
  }

  lemma {:induction false} VarintBytesEncode(n: nat)
    ensures EncodesVarint(n, VarintBytes(n))
  {
    if n >= 128 {
      VarintBytesEncode(n / 128);
      assert VarintBytes(n)[1..] == VarintBytes(n / 128);
    }
  }

  function Power256(width: nat): nat { if width == 0 then 1 else 256 * Power256(width - 1) }

  lemma {:induction false} FixedBytesEncode(n: nat, width: nat)
    requires n < Power256(width)
    ensures LittleEndian(FixedBytes(n, width)) == n
  {
    if width > 0 {
      FixedBytesEncode(n / 256, width - 1);
      assert FixedBytes(n, width)[1..] == FixedBytes(n / 256, width - 1);
    }
  }

  lemma ValueBytesEncode(f: Field)
    requires Encodable(f)
    ensures EncodesValue(f.value, ValueBytes(f.value))
  {
    match f.value
    case Varint(n) => VarintBytesEncode(n);
    case Fixed64(n) => Widths(); FixedBytesEncode(n, 8);
    case Fixed32(n) => Widths(); FixedBytesEncode(n, 4);
    case Bytes(data) =>
      VarintBytesEncode(|data|);
      var bytes, k := ValueBytes(f.value), |VarintBytes(|data|)|;
      assert bytes[..k] == VarintBytes(|data|) && bytes[k..] == data;
  }

  lemma Widths()
    ensures Power256(4) == 0x1_0000_0000 && Power256(8) == 0x1_0000_0000_0000_0000
  {
    assert Power256(2) == 65536;
    assert Power256(4) == 256 * (256 * Power256(2));
    assert Power256(6) == 256 * (256 * Power256(4));
  }

  lemma {:induction false} EncodeEncodes(fields: seq<Field>)
    requires forall f | f in fields :: Encodable(f)
    ensures Encodes(fields, Encode(fields))
  {
    if fields != [] {
      var message := Encode(fields);
      var head := [Tag(fields[0])] + ValueBytes(fields[0].value);
      ValueBytesEncode(fields[0]);
      EncodeEncodes(fields[1..]);
      assert head[1..] == ValueBytes(fields[0].value);
      assert message[..|head|] == head && message[|head|..] == Encode(fields[1..]);
    }
  }

  /** Walking an encoded list gives the list back. */
  lemma RoundTrip(fields: seq<Field>)
    requires forall f | f in fields :: Encodable(f)
    ensures Walk(Encode(fields)) == Walked(fields, None)
  {
    EncodeEncodes(fields);
    WalkIff(Encode(fields), fields);
  }

  // ----- looking fields up -----

  function FirstIn(fields: seq<Field>, number: nat): Option<Value> {
    if fields == [] then None
    else if fields[0].number == number then Some(fields[0].value)
    else FirstIn(fields[1..], number)
  }

  function Matching(f: Field, number: nat): seq<Value> { if f.number == number then [f.value] else [] }

  function AllIn(fields: seq<Field>, number: nat): seq<Value> {
    if fields == [] then [] else Matching(fields[0], number) + AllIn(fields[1..], number)
  }

  /** The field at this position is the first of the number. */
  ghost predicate FirstAt(fields: seq<Field>, number: nat, i: nat) {
    && i < |fields| && fields[i].number == number
    && forall j | 0 <= j < i :: fields[j].number != number
  }

  /** The value found is that of the first field of the number. */
  lemma {:induction false} FirstInIs(fields: seq<Field>, number: nat)
    ensures FirstIn(fields, number).None? <==> forall i | 0 <= i < |fields| :: fields[i].number != number
    ensures forall i: nat | FirstAt(fields, number, i) :: FirstIn(fields, number) == Some(fields[i].value)
    ensures FirstIn(fields, number).Some? ==> exists i: nat :: FirstAt(fields, number, i)
  {
    if fields != [] && fields[0].number != number {
      var rest := fields[1..];
      FirstInIs(rest, number);
      assert forall i | 1 <= i < |fields| :: rest[i - 1] == fields[i];
      if FirstIn(rest, number).Some? {
        var i: nat :| FirstAt(rest, number, i);
        assert FirstAt(fields, number, i + 1);
      }
      forall i: nat | FirstAt(fields, number, i)
        ensures FirstIn(fields, number) == Some(fields[i].value)
      {
        assert FirstAt(rest, number, i - 1);
      }
    } else if fields != [] {
      assert FirstAt(fields, number, 0);
    }
  }

  /** These are the positions of the number, in order. */
  ghost predicate PositionsOf(fields: seq<Field>, number: nat, positions: seq<nat>) {
    && (forall k, l | 0 <= k < l < |positions| :: positions[k] < positions[l])
    && forall i: nat :: i in positions <==> i < |fields| && fields[i].number == number
  }

  lemma {:induction false} AllInIs(fields: seq<Field>, number: nat) returns (positions: seq<nat>)
    ensures PositionsOf(fields, number, positions) && |AllIn(fields, number)| == |positions|
    ensures forall k | 0 <= k < |positions| ::
              positions[k] < |fields| && AllIn(fields, number)[k] == fields[positions[k]].value
  {
    hide PositionsOf, AllIn;
    if fields == [] {
      NothingFound(number);
      positions := [];
    } else {
      var n := |fields| - 1;
      positions := AllInIs(fields[..n], number);
      assert fields == fields[..n] + [fields[n]];
      AllConcat(fields[..n], [fields[n]], number);
      OneFound(fields[n], number);
      OneMorePosition(fields, number, positions);
      if fields[n].number == number {
        positions := positions + [n];
      }
    }
  }

  lemma NothingFound(number: nat)
    ensures AllIn([], number) == [] && PositionsOf([], number, [])
  {
  }

  lemma OneFound(f: Field, number: nat)
    ensures AllIn([f], number) == if f.number == number then [f.value] else []
  {
  }

  lemma OneMorePosition(fields: seq<Field>, number: nat, positions: seq<nat>)
    requires fields != [] && PositionsOf(fields[..|fields| - 1], number, positions)
    ensures var n: nat := |fields| - 1;
            PositionsOf(fields, number, if fields[n].number == number then positions + [n] else positions)
  {
    assert forall k | 0 <= k < |positions| :: positions[k] in positions;
  }

  /** The value of the first field of the number, a match before the error being found; the walk's error or
      nothing if there is none. */
  method First(msg: seq<Byte>, number: nat) returns (r: Result<Option<Value>, WalkError>)
    ensures forall v :: r == Ok(Some(v)) <==>
              exists i: nat | FirstAt(Walk(msg).fields, number, i) :: Walk(msg).fields[i].value == v
    ensures r == Ok(None) <==> Walk(msg).error.None? && forall f | f in Walk(msg).fields :: f.number != number
    ensures forall e :: r == Err(e) <==>
              Walk(msg).error == Some(e) && forall f | f in Walk(msg).fields :: f.number != number
  {
    hide Walk;
    var walked := ParseFields(msg);
    for i := 0 to |walked.fields|
      invariant forall j | 0 <= j < i :: walked.fields[j].number != number
    {
      if walked.fields[i].number == number {
        assert FirstAt(walked.fields, number, i) && walked.fields[i] in walked.fields;
        return Ok(Some(walked.fields[i].value));
      }
    }
    r := if walked.error.Some? then Err(walked.error.value) else Ok(None);
  }

  /** The values at exactly the positions of the number, in order. */
  method AllOf(msg: seq<Byte>, number: nat) returns (r: Result<seq<Value>, WalkError>, ghost positions: seq<nat>)
    ensures forall e :: r == Err(e) <==> Walk(msg).error == Some(e)
    ensures r.Ok? ==> PositionsOf(Walk(msg).fields, number, positions) && |r.value| == |positions|
    ensures r.Ok? ==> forall k | 0 <= k < |positions| ::
              positions[k] < |Walk(msg).fields| && r.value[k] == Walk(msg).fields[positions[k]].value
  {
    hide Walk;
    positions := [];
    var walked := ParseFields(msg);
    if walked.error.Some? {
      return Err(walked.error.value), [];
    }
    var values := [];
    for i := 0 to |walked.fields|
      invariant PositionsOf(walked.fields[..i], number, positions) && |values| == |positions|
      invariant forall k | 0 <= k < |positions| ::
                  positions[k] < i && values[k] == walked.fields[positions[k]].value
    {
      assert forall k | 0 <= k < |positions| :: positions[k] in positions && positions[k] < i;
      if walked.fields[i].number == number {
        values, positions := values + [walked.fields[i].value], positions + [i];
      }
    }
    assert walked.fields[..|walked.fields|] == walked.fields;
    r := Ok(values);
  }

  lemma {:induction false} AllConcat(a: seq<Field>, b: seq<Field>, number: nat)
    ensures AllIn(a + b, number) == AllIn(a, number) + AllIn(b, number)
  {
    hide Matching;
    if a == [] {
      assert a + b == b && [] + AllIn(b, number) == AllIn(b, number);
    } else {
      AllConcat(a[1..], b, number);
      assert (a + b)[0] == a[0] && (a + b)[1..] == a[1..] + b;
      Associates(Matching(a[0], number), AllIn(a[1..], number), AllIn(b, number));
    }
  }

  lemma {:induction false} FirstConcat(a: seq<Field>, b: seq<Field>, number: nat)
    ensures FirstIn(a + b, number) == if FirstIn(a, number).Some? then FirstIn(a, number) else FirstIn(b, number)
  {
    if a == [] {
      assert a + b == b;
    } else {
      assert (a + b)[1..] == a[1..] + b;
      FirstConcat(a[1..], b, number);
    }
  }

  /** Of two whole messages in a row, the first match is in the earlier if it has one, and all matches are
      those of both. */
  lemma LookupInConcat(a: seq<Byte>, b: seq<Byte>, number: nat)
    requires Complete(a)
    ensures AllIn(Walk(a + b).fields, number) == AllIn(Walk(a).fields, number) + AllIn(Walk(b).fields, number)
    ensures FirstIn(Walk(a + b).fields, number)
         == if FirstIn(Walk(a).fields, number).Some? then FirstIn(Walk(a).fields, number)
            else FirstIn(Walk(b).fields, number)
  {
    WalkConcat(a, b);
    AllConcat(Walk(a).fields, Walk(b).fields, number);
    FirstConcat(Walk(a).fields, Walk(b).fields, number);
  }
}
