/**
 * Windows text in memory: UTF-16 code units as little-endian byte pairs, and the
 * bounded length scan `wcsnlen_s`.
 */
module Wide {
  import opened Basics

  function ToBytes(w: WString): (b: Bytes)
    ensures |b| == 2 * |w|
  {
    seq(2 * |w|, i requires 0 <= i < 2 * |w| => if i % 2 == 0 then w[i / 2] % 256 else w[i / 2] / 256)
  }

  function FromBytes(b: Bytes): (w: WString)
    requires |b| % 2 == 0
    ensures |w| == |b| / 2
  {
    seq(|b| / 2, i requires 0 <= i < |b| / 2 => b[2 * i] + 256 * (b[2 * i + 1] as int))
  }

  /** The two bytes of one unit. */
  lemma UnitBytes(w: WString, i: nat)
    requires i < |w|
    ensures ToBytes(w)[2 * i] == w[i] % 256 && ToBytes(w)[2 * i + 1] == w[i] / 256
  {
    assert (2 * i) / 2 == i && (2 * i) % 2 == 0 && (2 * i + 1) / 2 == i && (2 * i + 1) % 2 == 1;
  }

  lemma Halves(unit: int)
    ensures unit % 256 + 256 * (unit / 256) == unit
  {
  }

  lemma FromToBytes(w: WString)
    ensures FromBytes(ToBytes(w)) == w
  {
    forall i | 0 <= i < |w| ensures FromBytes(ToBytes(w))[i] == w[i] {
      UnitBytes(w, i);
      Halves(w[i]);
    }
  }

  /** The low byte and the rest of a number put together from them. */
  lemma LowAndRest(low: Byte, rest: nat)
    ensures (low + 256 * rest) % 256 == low && (low + 256 * rest) / 256 == rest
  {
  }

  lemma ToFromBytes(b: Bytes)
    requires |b| % 2 == 0
    ensures ToBytes(FromBytes(b)) == b
  {
    var w := FromBytes(b);
    forall i | 0 <= i < |b| ensures ToBytes(w)[i] == b[i] {
      var k := i / 2;
      UnitBytes(w, k);
      LowAndRest(b[2 * k], b[2 * k + 1]);
      assert i == 2 * k || i == 2 * k + 1;
    }
  }

  /** The number of units before the first terminator, or the whole length without one. */
  function Length(w: WString): (n: nat)
    ensures n <= |w|
    ensures forall i | 0 <= i < n :: w[i] != 0
    ensures n < |w| ==> w[n] == 0
  {
    if w == [] || w[0] == 0 then 0 else 1 + Length(w[1..])
  }

  lemma LengthUnique(w: WString, n: nat)
    requires n <= |w| && (forall i | 0 <= i < n :: w[i] != 0) && (n < |w| ==> w[n] == 0)
    ensures Length(w) == n
  {
  }

  /** What the worker demands of a decrypted credential before it may become a proof. */
  predicate WellFormedPassword(b: Bytes) {
    4 <= |b| <= 8192 && |b| % 2 == 0 && Length(FromBytes(b)) == |b| / 2 - 1
  }

  /** A text of 1 to 4095 units, none of them zero, followed by one terminator. */
  ghost predicate Terminated(b: Bytes, text: WString) {
    1 <= |text| <= 4095 && 0 !in text && b == ToBytes(text + [0])
  }

  lemma TextOfPassword(b: Bytes) returns (text: WString)
    requires WellFormedPassword(b)
    ensures Terminated(b, text)
  {
    text := BeforeTerminator(FromBytes(b));
    ToFromBytes(b);
  }

  lemma BeforeTerminator(w: WString) returns (text: WString)
    requires |w| > 0 && Length(w) == |w| - 1
    ensures w == text + [0] && 0 !in text
  {
    text := w[..|w| - 1];
  }

  lemma PasswordOfText(b: Bytes, text: WString)
    requires Terminated(b, text)
    ensures WellFormedPassword(b)
  {
    FromToBytes(text + [0]);
    LengthUnique(text + [0], |text|);
  }

  /** The worker's check accepts exactly the terminated texts. */
  lemma PasswordShape(b: Bytes)
    ensures WellFormedPassword(b) <==> exists text :: Terminated(b, text)
  {
    if WellFormedPassword(b) {
      var text := TextOfPassword(b);
    }
    if text :| Terminated(b, text) { PasswordOfText(b, text); }
  }
}
