// SQL values and their bytes (sabi-sql/src/types.rs).
module SqlValues {
  import opened Wrappers
  import opened Bytes

  const TWO_63 := 0x8000_0000_0000_0000
  const TWO_64 := 0x1_0000_0000_0000_0000

  type i64 = i: int | -TWO_63 <= i < TWO_63

  predicate Continuation(b: byte) {
    0x80 <= b < 0xC0
  }

  // Whether a byte string is well-formed UTF-8: shortest forms only, no surrogates, at most U+10FFFF.
  predicate Utf8(s: seq<byte>) {
    if s == [] then true
    else if s[0] < 0x80 then Utf8(s[1..])
    else if 0xC2 <= s[0] < 0xE0 then 2 <= |s| && Continuation(s[1]) && Utf8(s[2..])
    else if 0xE0 <= s[0] < 0xF0 then
      && 3 <= |s| && Continuation(s[1]) && Continuation(s[2])
      && (s[0] == 0xE0 ==> 0xA0 <= s[1]) && (s[0] == 0xED ==> s[1] < 0xA0)
      && Utf8(s[3..])
    else if 0xF0 <= s[0] < 0xF5 then
      && 4 <= |s| && Continuation(s[1]) && Continuation(s[2]) && Continuation(s[3])
      && (s[0] == 0xF0 ==> 0x90 <= s[1]) && (s[0] == 0xF4 ==> s[1] < 0x90)
      && Utf8(s[4..])
    else false
  }

  // String
  type Text = s: seq<byte> | Utf8(s) witness []

  datatype DataType = IntegerType | TextType | BooleanType
  datatype Value = Null | Integer(i: i64) | Text(text: Text) | Boolean(b: bool)

  function TypeOf(v: Value): Option<DataType> {
    match v
    case Null => None
    case Integer(_) => Some(IntegerType)
    case Text(_) => Some(TextType)
    case Boolean(_) => Some(BooleanType)
  }

  // ---------------------------------------------------------------------------
  // Comparing
  // ---------------------------------------------------------------------------

  datatype Ordering = Smaller | Equal | Greater

  function Mirror(o: Ordering): Ordering {
    match o
    case Smaller => Greater
    case Equal => Equal
    case Greater => Smaller
  }

  function CompareText(a: seq<byte>, b: seq<byte>): Ordering {
    if a == b then Equal else if Less(a, b) then Smaller else Greater
  }

  function Compare(a: Value, b: Value): Option<Ordering> {
    match (a, b)
    case (Null, Null) => Some(Equal)
    case (Integer(x), Integer(y)) => Some(if x < y then Smaller else if x == y then Equal else Greater)
    case (Text(x), Text(y)) => Some(CompareText(x, y))
    case (Boolean(x), Boolean(y)) => Some(if x == y then Equal else if y then Smaller else Greater)
    case (_, _) => None
  }

  // Values are comparable exactly within a type, and there Compare is a total order.
  lemma {:induction false} CompareIsTotalOrder(a: Value, b: Value, c: Value)
    ensures Compare(a, b).Some? <==> TypeOf(a) == TypeOf(b)
    ensures Compare(a, b) == Some(Equal) <==> a == b
    ensures Compare(a, b).Some? ==> Compare(b, a) == Some(Mirror(Compare(a, b).value))
    ensures Compare(a, b) == Some(Smaller) && Compare(b, c) == Some(Smaller) ==> Compare(a, c) == Some(Smaller)
  {
    hide Less;
    if a.Text? && b.Text? {
      LessIsTotalOrder(a.text, b.text, a.text);
      if c.Text? {
        LessIsTotalOrder(a.text, b.text, c.text);
        LessIsTotalOrder(a.text, a.text, a.text);
      }
    }
  }

  // ---------------------------------------------------------------------------
  // Bytes
  // ---------------------------------------------------------------------------

  // Two's complement
  function Unsigned(i: i64): (n: nat)
    ensures n < TWO_64
  {
    if i < 0 then i + TWO_64 else i
  }

  function Signed(n: nat): i64
    requires n < TWO_64
  {
    if n < TWO_63 then n else n - TWO_64
  }

  function ToBytes(v: Value): seq<byte> {
    match v
    case Null => [0]
    case Integer(i) => [1] + Le(Unsigned(i), 8)
    case Text(s) => [2] + Le(|s|, 4) + s
    case Boolean(b) => [3, if b then 1 else 0]
  }

  function ReadInteger(b: seq<byte>): i64
    requires |b| == 8
  {
    FromLeRoundTrip(b);
    PowValues();
    Signed(FromLe(b))
  }

  // The value at the cursor and the cursor behind it, as deserialize_row reads it.  `boolSize` is
  // how far the cursor moves past the byte of a Boolean: 0 as the code is, 1 as it should be.
  function ReadValue(boolSize: nat, b: seq<byte>, at: nat): (r: Result<(Value, nat)>)
    requires boolSize <= 1 && at < |b|
    ensures r.Ok? ==> at < r.value.1 <= |b|
  {
    if b[at] == 0 then Ok((Null, at + 1))
    else if b[at] == 1 then
      if at + 9 > |b| then Err(InternalError) else Ok((Integer(ReadInteger(b[at + 1..at + 9])), at + 9))
    else if b[at] == 2 then
      if at + 5 > |b| then Err(InternalError)
      else
        var len := FromLe(b[at + 1..at + 5]);
        if at + 5 + len > |b| then Err(InternalError)
        else if !Utf8(b[at + 5..at + 5 + len]) then Err(InternalError)
        else Ok((Text(b[at + 5..at + 5 + len]), at + 5 + len))
    else if b[at] == 3 then
      if at + 1 >= |b| then Err(InternalError) else Ok((Boolean(b[at + 1] != 0), at + 1 + boolSize))
    else Err(InternalError)
  }

  // from_bytes: no bytes at all stand for NULL, and whatever follows the value is ignored.
  function FromBytes(b: seq<byte>): Result<Value> {
    if b == [] then Ok(Null)
    else
      var (v, _) :- ReadValue(1, b, 0);
      Ok(v)
  }

  // The length field is a u32.
  predicate Storable(v: Value) {
    v.Text? ==> |v.text| < 0x1_0000_0000
  }

  lemma {:induction false} IntegerRoundTrip(i: i64)
    ensures ReadInteger(Le(Unsigned(i), 8)) == i
  {
    hide Le, FromLe;
    PowValues();
    LeRoundTrip(Unsigned(i), 8);
  }

  lemma {:induction false} ReadBackInteger(boolSize: nat, pre: seq<byte>, i: i64, post: seq<byte>)
    requires boolSize <= 1
    ensures ReadValue(boolSize, pre + ToBytes(Integer(i)) + post, |pre|) == Ok((Integer(i), |pre| + |ToBytes(Integer(i))|))
  {
    hide Le, FromLe, ReadInteger, Utf8;
    var b, at := pre + ToBytes(Integer(i)) + post, |pre|;
    IntegerRoundTrip(i);
    assert b[at] == 1 && b[at + 1..at + 9] == Le(Unsigned(i), 8);
  }

  lemma {:induction false} ReadBackText(boolSize: nat, pre: seq<byte>, s: Text, post: seq<byte>)
    requires boolSize <= 1 && |s| < 0x1_0000_0000
    ensures ReadValue(boolSize, pre + ToBytes(Text(s)) + post, |pre|) == Ok((Text(s), |pre| + |ToBytes(Text(s))|))
  {
    hide Le, FromLe, ReadInteger, Utf8;
    var b, at := pre + ToBytes(Text(s)) + post, |pre|;
    PowValues();
    LeRoundTrip(|s|, 4);
    assert b[at] == 2 && b[at + 1..at + 5] == Le(|s|, 4) && b[at + 5..at + 5 + |s|] == s;
  }

  // A value read where it was written comes back, and the cursor ends up behind it, or one byte
  // short of that if Booleans have no size.
  lemma {:induction false} ReadBackValue(boolSize: nat, pre: seq<byte>, v: Value, post: seq<byte>)
    requires boolSize <= 1 && Storable(v)
    ensures ReadValue(boolSize, pre + ToBytes(v) + post, |pre|) ==
            Ok((v, |pre| + |ToBytes(v)| - if v.Boolean? then 1 - boolSize else 0))
  {
    hide Le, FromLe, ReadInteger, Utf8;
    match v
    case Null =>
      var b := pre + ToBytes(v) + post;
      assert b[|pre|] == ToBytes(v)[0];
    case Integer(i) => ReadBackInteger(boolSize, pre, i, post);
    case Text(s) => ReadBackText(boolSize, pre, s, post);
    case Boolean(x) =>
      var b := pre + ToBytes(v) + post;
      assert b[|pre|] == ToBytes(v)[0] && b[|pre| + 1] == ToBytes(v)[1];
  }

  // Values are self-delimiting: what follows does not matter.
  lemma {:induction false} ValueRoundTrip(v: Value, post: seq<byte>)
    requires Storable(v)
    ensures FromBytes(ToBytes(v) + post) == Ok(v)
  {
    hide ReadValue, ToBytes;
    assert [] + ToBytes(v) + post == ToBytes(v) + post;
    ReadBackValue(1, [], v, post);
    BytesNonempty(v);
  }

  lemma {:induction false} BytesNonempty(v: Value)
    ensures ToBytes(v) != []
  {
  }

  // A value is read exactly where its bytes stand, except that any byte but 0 counts as true.
  lemma {:induction false} ValueIsItsBytes(b: seq<byte>, at: nat, v: Value, next: nat)
    requires at < |b|
    ensures ReadValue(1, b, at) == Ok((v, next)) <==>
            at < next <= |b| && Storable(v) &&
            (b[at..next] == ToBytes(v) || (v == Boolean(true) && next == at + 2 && b[at] == 3 && b[at + 1] != 0))
    ensures ReadValue(1, b, at).Err? ==> ReadValue(1, b, at).error == InternalError
  {
    hide Le, FromLe, ReadInteger, Utf8, ToBytes;
    if ReadValue(1, b, at) == Ok((v, next)) {
      ValueHasBytes(b, at);
    }
    if at < next <= |b| && Storable(v) && b[at..next] == ToBytes(v) {
      assert b == b[..at] + ToBytes(v) + b[next..];
      ReadBackValue(1, b[..at], v, b[next..]);
    }
  }

  lemma {:induction false} ValueHasBytes(b: seq<byte>, at: nat)
    requires at < |b| && ReadValue(1, b, at).Ok?
    ensures var (v, next) := ReadValue(1, b, at).value;
            Storable(v) && (b[at..next] == ToBytes(v) || (v == Boolean(true) && next == at + 2 && b[at] == 3 && b[at + 1] != 0))
  {
    hide Le, FromLe, ReadInteger, Utf8;
    var (v, next) := ReadValue(1, b, at).value;
    PowValues();
    match v
    case Null => assert b[at..next] == [0];
    case Integer(i) =>
      IntegerBytes(b[at + 1..at + 9]);
      assert b[at..next] == [1] + b[at + 1..at + 9];
    case Text(s) =>
      FromLeRoundTrip(b[at + 1..at + 5]);
      assert b[at..next] == [2] + b[at + 1..at + 5] + s;
    case Boolean(x) => assert b[at..next] == [3, b[at + 1]];
  }

  lemma {:induction false} IntegerBytes(b: seq<byte>)
    requires |b| == 8
    ensures Le(Unsigned(ReadInteger(b)), 8) == b
  {
    hide Le, FromLe;
    PowValues();
    FromLeRoundTrip(b);
  }
}
