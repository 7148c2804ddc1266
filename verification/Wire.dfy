/** The primitives of the profile format of src/profile.cpp: little-endian lengths, a growing buffer, a cursor. */
module Wire {
  import opened Basics
  import opened Wide

  /** Byte `i` of a number, counting from the lowest: `(n >> 8*i) & 0xff`. */
  function Digit(n: nat, i: nat): Byte {
    if i == 0 then n % 256 else Digit(n / 256, i - 1)
  }

  function Digits(n: nat, k: nat): (b: Bytes)
    ensures |b| == k
  {
    seq(k, i requires 0 <= i < k => Digit(n, i))
  }

  /** The four little-endian bytes of a 32-bit number. */
  function U32(n: nat): (b: Bytes)
    ensures |b| == 4
  {
    Digits(n, 4)
  }

  /** The number that little-endian bytes spell. */
  function Number(b: Bytes): nat {
    if b == [] then 0 else b[0] + 256 * Number(b[1..])
  }

  function Power256(k: nat): nat {
    if k == 0 then 1 else 256 * Power256(k - 1)
  }

  lemma {:induction false} NumberOfDigits(n: nat, k: nat)
    requires n < Power256(k)
    ensures Number(Digits(n, k)) == n
  {
    if k == 0 {
    } else {
      NumberOfDigits(n / 256, k - 1);
      assert Digits(n, k)[1..] == Digits(n / 256, k - 1);
    }
  }

  lemma DigitOf(n: nat, i: nat)
    ensures Digit(n, i) == if i == 0 then n % 256 else Digit(n / 256, i - 1)
  {
  }

  lemma {:induction false} DigitsOfNumber(b: Bytes)
    ensures Digits(Number(b), |b|) == b
  {
    if b == [] {
    } else {
      var n, rest := Number(b), b[1..];
      DigitsOfNumber(rest);
      LowAndRest(b[0], Number(rest));
      forall i | 0 <= i < |b| ensures Digits(n, |b|)[i] == b[i] {
        DigitOf(n, i);
        if i > 0 { assert Digits(Number(rest), |rest|)[i - 1] == rest[i - 1]; }
      }
    }
  }

  lemma NumberOfU32(n: nat)
    requires n < 0x1_0000_0000
    ensures Number(U32(n)) == n
  {
    assert Power256(4) == 0x1_0000_0000;
    NumberOfDigits(n, 4);
  }

  /** The four bytes by position, and the number they spell. */
  lemma U32Bytes(n: nat)
    ensures U32(n) == [n % 256, n / 256 % 256, n / 256 / 256 % 256, n / 256 / 256 / 256 % 256]
  {
    DigitOf(n, 1);
    DigitOf(n, 2);
    DigitOf(n / 256, 1);
    DigitOf(n, 3);
    DigitOf(n / 256, 2);
    DigitOf(n / 256 / 256, 1);
  }

  /** An identity string that `putString` accepts. */
  predicate Identity(w: WString) {
    0 < |w| <= 512 && 0 !in w
  }

  function StringBytes(w: WString): (b: Bytes)
    requires |w| <= 512
    ensures |b| == 4 + 2 * |w|
  {
    U32(|w|) + ToBytes(w)
  }

  // What the cursor reads at a position, or a failure.

  function TakeAt(b: Bytes, position: nat, n: nat): (r: Result<Bytes>)
    ensures r.Ok? <==> position + n <= |b|
    ensures r.Ok? ==> |r.value| == n
  {
    if position + n <= |b| then Ok(b[position..position + n]) else Err
  }

  function NumberAt(b: Bytes, position: nat): (r: Result<nat>)
    ensures r.Ok? ==> position + 4 <= |b|
  {
    var bytes :- TakeAt(b, position, 4);
    Ok(Number(bytes))
  }

  function StringAt(b: Bytes, position: nat): (r: Result<WString>)
    ensures r.Ok? ==> Identity(r.value) && position + 4 + 2 * |r.value| <= |b|
  {
    var n :- NumberAt(b, position);
    :- Need(0 < n <= 512);
    var bytes :- TakeAt(b, position + 4, 2 * n);
    :- Need(0 !in FromBytes(bytes));
    Ok(FromBytes(bytes))
  }

  // Reading back a field that was written after `before`; the rest then follows both.

  lemma TakeWritten(b: Bytes, before: Bytes, field: Bytes, rest: Bytes)
    requires b == before + (field + rest)
    ensures TakeAt(b, |before|, |field|) == Ok(field) && b == (before + field) + rest
  {
    assert b[|before|..|before| + |field|] == field;
  }

  lemma NumberWritten(b: Bytes, before: Bytes, n: nat, rest: Bytes)
    requires n < 0x1_0000_0000 && b == before + (U32(n) + rest)
    ensures NumberAt(b, |before|) == Ok(n) && b == (before + U32(n)) + rest
  {
    TakeWritten(b, before, U32(n), rest);
    NumberOfU32(n);
  }

  lemma StringWritten(b: Bytes, before: Bytes, w: WString, rest: Bytes)
    requires Identity(w) && b == before + (StringBytes(w) + rest)
    ensures StringAt(b, |before|) == Ok(w) && b == (before + StringBytes(w)) + rest
  {
    assert StringBytes(w) + rest == U32(|w|) + (ToBytes(w) + rest);
    NumberWritten(b, before, |w|, ToBytes(w) + rest);
    TakeWritten(b, before + U32(|w|), ToBytes(w), rest);
    FromToBytes(w);
    assert before + (U32(|w|) + ToBytes(w)) == before + U32(|w|) + ToBytes(w);
  }

  /** What was read is exactly what `put32` and `putString` write for it. */
  lemma NumberRead(b: Bytes, position: nat)
    requires NumberAt(b, position).Ok?
    ensures b[position..position + 4] == U32(NumberAt(b, position).value)
  {
    DigitsOfNumber(b[position..position + 4]);
  }

  lemma StringParts(b: Bytes, position: nat)
    requires StringAt(b, position).Ok?
    ensures var w := StringAt(b, position).value;
            NumberAt(b, position) == Ok(|w|) && w == FromBytes(b[position + 4..position + 4 + 2 * |w|])
  {
  }

  lemma Append(a: Bytes, b: Bytes, c: Bytes)
    ensures a + b + c == a + (b + c)
  {
  }

  lemma Split(b: Bytes, i: nat, j: nat, k: nat)
    requires i <= j <= k <= |b|
    ensures b[i..k] == b[i..j] + b[j..k]
  {
  }

  lemma StringRead(b: Bytes, position: nat)
    requires StringAt(b, position).Ok?
    ensures var w := StringAt(b, position).value; b[position..position + 4 + 2 * |w|] == StringBytes(w)
  {
    var w := StringAt(b, position).value;
    StringParts(b, position);
    NumberRead(b, position);
    Split(b, position, position + 4, position + 4 + 2 * |w|);
    ToFromBytes(b[position + 4..position + 4 + 2 * |w|]);
  }

  /** A string is read at a position exactly if it is an identity string and its encoding stands there. */
  lemma StringAtExactly(b: Bytes, position: nat, w: WString)
    ensures StringAt(b, position) == Ok(w) <==>
              && 1 <= |w| <= 512 && 0 !in w
              && position + 4 + 2 * |w| <= |b| && b[position..position + 4 + 2 * |w|] == U32(|w|) + ToBytes(w)
  {
    if StringAt(b, position) == Ok(w) { StringRead(b, position); }
    if 1 <= |w| <= 512 && 0 !in w && position + 4 + 2 * |w| <= |b| &&
       b[position..position + 4 + 2 * |w|] == U32(|w|) + ToBytes(w)
    {
      var end := position + 4 + 2 * |w|;
      assert b == b[..position] + (StringBytes(w) + b[end..]);
      StringWritten(b, b[..position], w, b[end..]);
    }
  }

  // ----- The mutable counterparts

  /** Bitwise exclusive or and or, bit by bit from the lowest. */
  function Xor(x: nat, y: nat): nat {
    if x == 0 && y == 0 then 0 else (x + y) % 2 + 2 * Xor(x / 2, y / 2)
  }

  function Or(x: nat, y: nat): nat {
    if x == 0 && y == 0 then 0 else (if x % 2 == 1 || y % 2 == 1 then 1 else 0) + 2 * Or(x / 2, y / 2)
  }

  lemma {:induction false} XorIsZero(x: nat, y: nat)
    ensures Xor(x, y) == 0 <==> x == y
  {
    if x == 0 && y == 0 {
    } else {
      XorIsZero(x / 2, y / 2);
    }
  }

  lemma {:induction false} OrIsZero(x: nat, y: nat)
    ensures Or(x, y) == 0 <==> x == 0 && y == 0
  {
    if x == 0 && y == 0 {
    } else {
      OrIsZero(x / 2, y / 2);
    }
  }

  /** The OR-accumulating comparison `equal` of src/core.cpp: it looks at every byte before it answers. */
  method Equal(a: Bytes, b: Bytes) returns (same: bool)
    ensures same == (a == b)
  {
    if |a| != |b| { return false; }
    var difference := 0;
    for i := 0 to |a|
      invariant difference == 0 <==> a[..i] == b[..i]
    {
      XorIsZero(a[i], b[i]);
      OrIsZero(difference, Xor(a[i], b[i]));
      difference := Or(difference, Xor(a[i], b[i]));
      assert a[..i + 1] == a[..i] + [a[i]] && b[..i + 1] == b[..i] + [b[i]];
    }
    assert a[..|a|] == a && b[..|b|] == b;
    same := difference == 0;
  }

  /** The `Bytes` vector that the put functions append to. */
  class Buffer {
    var contents: Bytes

    constructor (initial: Bytes)
      ensures contents == initial
    {
      contents := initial;
    }

    method PutBytes(bytes: Bytes)
      modifies this
      ensures contents == old(contents) + bytes
    {
      contents := contents + bytes;
    }

    method Put32(number: nat) returns (ok: bool)
      modifies this
      ensures ok == (number <= 65536)
      ensures contents == old(contents) + if ok then U32(number) else []
    {
      if number > 65536 { return false; }
      ghost var before := contents;
      for i := 0 to 4
        invariant contents == before + U32(number)[..i]
      {
        contents := contents + [Digit(number, i)];
      }
      ok := true;
    }

    method PutString(value: WString) returns (ok: bool)
      modifies this
      ensures ok == (0 < |value| <= 512 && 0 !in value)
      ensures ok ==> contents == old(contents) + StringBytes(value)
    {
      if value == [] || |value| > 512 || 0 in value { return false; }
      ok := Put32(|value|);
      PutBytes(ToBytes(value));
    }
  }

  lemma Distribute(scale: int, low: int, high: int)
    ensures scale * (low + 256 * high) == scale * low + (scale * 256) * high
  {
  }

  /** `Reader`: a cursor over bytes that either advances past what it returns or fails. */
  class Reader {
    const data: Bytes
    var position: nat

    constructor (bytes: Bytes)
      ensures data == bytes && position == 0
    {
      data, position := bytes, 0;
    }

    method Take(n: nat) returns (r: Result<Bytes>)
      modifies this
      ensures r == TakeAt(data, old(position), n)
      ensures r.Ok? ==> position == old(position) + n
    {
      if position > |data| || n > |data| - position { return Err; }
      r := Ok(data[position..position + n]);
      position := position + n;
    }

    method ReadNumber() returns (r: Result<nat>)
      modifies this
      ensures r == NumberAt(data, old(position))
      ensures r.Ok? ==> position == old(position) + 4
    {
      var bytes := Take(4);
      if bytes.Err? { return Err; }
      var result, scale := 0, 1;
      for i := 0 to 4
        invariant position == old(position) + 4
        invariant result + scale * Number(bytes.value[i..]) == Number(bytes.value)
      {
        ghost var rest := bytes.value[i..];
        assert rest[1..] == bytes.value[i + 1..];
        Distribute(scale, rest[0], Number(rest[1..]));
        result, scale := result + scale * (bytes.value[i] as int), scale * 256;
      }
      r := Ok(result);
    }

    method ReadString() returns (r: Result<WString>)
      modifies this
      ensures r == StringAt(data, old(position))
      ensures r.Ok? ==> position == old(position) + 4 + 2 * |r.value|
    {
      var n := ReadNumber();
      if n.Err? || n.value == 0 || n.value > 512 { return Err; }
      var bytes := Take(2 * n.value);
      if bytes.Err? || 0 in FromBytes(bytes.value) { return Err; }
      r := Ok(FromBytes(bytes.value));
    }
  }
}
