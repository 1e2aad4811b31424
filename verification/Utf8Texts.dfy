// Which byte strings are texts: those that encode Unicode scalar values (String::from_utf8 in
// executor/mod.rs:479-480).
module Utf8Texts {
  import opened Bytes
  import opened SqlValues

  // A code point that is not a surrogate
  type Scalar = c: nat | c < 0xD800 || 0xE000 <= c < 0x11_0000

  // UTF-8 (RFC 3629, section 3)
  function EncodeScalar(c: Scalar): seq<byte> {
    if c < 0x80 then [c]
    else if c < 0x800 then [0xC0 + c / 64, 0x80 + c % 64]
    else if c < 0x1_0000 then [0xE0 + c / 4096, 0x80 + c / 64 % 64, 0x80 + c % 64]
    else [0xF0 + c / 262144, 0x80 + c / 4096 % 64, 0x80 + c / 64 % 64, 0x80 + c % 64]
  }

  function EncodeText(text: seq<Scalar>): seq<byte> {
    if text == [] then [] else EncodeScalar(text[0]) + EncodeText(text[1..])
  }

  // One character in its shortest form: its first byte tells its width and restricts its second.
  predicate Character(e: seq<byte>) {
    && e != []
    && (forall i :: 1 <= i < |e| ==> Continuation(e[i]))
    && match |e|
       case 1 => e[0] < 0x80
       case 2 => 0xC2 <= e[0] < 0xE0
       case 3 => 0xE0 <= e[0] < 0xF0 && (e[0] == 0xE0 ==> 0xA0 <= e[1]) && (e[0] == 0xED ==> e[1] < 0xA0)
       case 4 => 0xF0 <= e[0] < 0xF5 && (e[0] == 0xF0 ==> 0x90 <= e[1]) && (e[0] == 0xF4 ==> e[1] < 0x90)
       case _ => false
  }

  lemma {:induction false} ScalarsAreCharacters(c: Scalar)
    ensures Character(EncodeScalar(c))
  {
  }

  lemma {:induction false} CharactersAreScalars(e: seq<byte>) returns (c: Scalar)
    requires Character(e)
    ensures EncodeScalar(c) == e
  {
    var first: int := e[0];
    if |e| == 1 {
      c := first;
    } else if |e| == 2 {
      var low: int := e[1] - 0x80;
      c := (first - 0xC0) * 64 + low;
      assert c / 64 == first - 0xC0 && c % 64 == low;
    } else if |e| == 3 {
      c := WideScalar(first - 0xE0, e[1] - 0x80, e[2] - 0x80);
    } else {
      c := WidestScalar(first - 0xF0, e[1] - 0x80, e[2] - 0x80, e[3] - 0x80);
    }
  }

  lemma {:induction false} WideScalar(high: int, mid: int, low: int) returns (c: Scalar)
    requires 0 <= high < 16 && 0 <= mid < 64 && 0 <= low < 64
    requires (high == 0 ==> 32 <= mid) && (high == 13 ==> mid < 32)
    ensures EncodeScalar(c) == [0xE0 + high, 0x80 + mid, 0x80 + low]
  {
    c := high * 4096 + mid * 64 + low;
    assert c / 64 == high * 64 + mid && c % 64 == low;
  }

  lemma {:induction false} WidestScalar(top: int, high: int, mid: int, low: int) returns (c: Scalar)
    requires 0 <= top <= 4 && 0 <= high < 64 && 0 <= mid < 64 && 0 <= low < 64
    requires (top == 0 ==> 16 <= high) && (top == 4 ==> high < 16)
    ensures EncodeScalar(c) == [0xF0 + top, 0x80 + high, 0x80 + mid, 0x80 + low]
  {
    c := top * 262144 + high * 4096 + mid * 64 + low;
    assert c / 64 == top * 4096 + high * 64 + mid && c % 64 == low;
    assert c / 4096 == top * 64 + high;
  }

  lemma {:induction false} CharacterThenRest(e: seq<byte>, rest: seq<byte>)
    requires Character(e)
    ensures Utf8(e + rest) <==> Utf8(rest)
  {
    var s := e + rest;
    assert s[|e|..] == rest;
    assert s[0] == e[0];
    assert |e| > 1 ==> s[1] == e[1];
    assert |e| > 2 ==> s[2] == e[2];
    assert |e| > 3 ==> s[3] == e[3];
  }

  lemma {:induction false} FirstCharacter(s: seq<byte>) returns (n: nat)
    requires Utf8(s) && s != []
    ensures 0 < n <= |s| && Character(s[..n]) && Utf8(s[n..])
  {
    n := if s[0] < 0x80 then 1 else if s[0] < 0xE0 then 2 else if s[0] < 0xF0 then 3 else 4;
  }

  lemma {:induction false} TextsAreUtf8(text: seq<Scalar>)
    ensures Utf8(EncodeText(text))
  {
    hide Utf8, EncodeScalar, Character;
    if text == [] {
      assert Utf8([]) by { EmptyIsUtf8(); }
    } else {
      TextsAreUtf8(text[1..]);
      ScalarsAreCharacters(text[0]);
      CharacterThenRest(EncodeScalar(text[0]), EncodeText(text[1..]));
    }
  }

  lemma {:induction false} EmptyIsUtf8()
    ensures Utf8([])
  {
  }

  lemma {:induction false} Scalars(s: seq<byte>) returns (text: seq<Scalar>)
    requires Utf8(s)
    ensures EncodeText(text) == s
  {
    hide Utf8, EncodeScalar, Character;
    if s == [] {
      text := [];
    } else {
      var n := FirstCharacter(s);
      var c := CharactersAreScalars(s[..n]);
      var rest := Scalars(s[n..]);
      text := [c] + rest;
      assert text[1..] == rest;
      assert s == s[..n] + s[n..];
    }
  }

  // A byte string is a text exactly when it encodes a sequence of scalar values.
  lemma {:induction false} Utf8Exactly(s: seq<byte>)
    ensures Utf8(s) <==> exists text :: EncodeText(text) == s
  {
    hide Utf8, EncodeText;
    if Utf8(s) {
      var text := Scalars(s);
    }
    if text :| EncodeText(text) == s {
      TextsAreUtf8(text);
    }
  }
}
