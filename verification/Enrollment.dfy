/**
 * Enrollment (src/enroll.cpp) and unlocking (src/profile.cpp, src/core.cpp) end to end.
 * AES-GCM and the hardware secret are parameters: a pair of functions, and a function
 * from the enrolled key to its `hmac-secret`.
 */
module Enrollment {
  import opened Basics
  import opened Wide
  import opened Wire
  import opened Profile
  import opened ProfileCodec
  import Touch
  import Worker = Credential
  import Runs = CredentialRuns

  // ----- Sealing

  datatype Cipher = Cipher(ciphertext: Bytes, tag: Bytes16)

  /** The two library calls: key, nonce, plaintext and authenticated data; key, box and authenticated data. */
  datatype Aead = Aead(encrypt: (Bytes, Bytes12, Bytes, Bytes) -> Option<Cipher>,
                       decrypt: (Bytes, Sealed, Bytes) -> Option<Bytes>)

  function Seal(aead: Aead, key: Bytes, nonce: Bytes12, plaintext: Bytes, binding: Bytes): (r: Result<Sealed>)
    ensures r.Ok? ==> 1 <= |plaintext| <= 32768 && |binding| <= 32768 && |key| == 32
    ensures r.Ok? ==>
              && r.value.nonce == nonce && |r.value.ciphertext| == |plaintext|
              && aead.encrypt(key, nonce, plaintext, binding) == Some(Cipher(r.value.ciphertext, r.value.tag))
  {
    if !(0 < |plaintext| <= 32768 && |binding| <= 32768 && |key| == 32) then Err else
    var cipher := aead.encrypt(key, nonce, plaintext, binding);
    :- Need(cipher.Some? && |cipher.value.ciphertext| == |plaintext|);
    Ok(Sealed(nonce, cipher.value.tag, cipher.value.ciphertext))
  }

  function Unseal(aead: Aead, key: Bytes, box: Sealed, binding: Bytes): (r: Result<Bytes>)
    ensures r.Ok? ==> |r.value| == |box.ciphertext| > 0
    ensures r.Ok? ==> |box.ciphertext| <= 32768 && |binding| <= 32768 && |key| == 32
    ensures r.Ok? ==> aead.decrypt(key, box, binding) == Some(r.value)
  {
    if !(0 < |box.ciphertext| <= 32768 && |binding| <= 32768 && |key| == 32) then Err else
    var plaintext := aead.decrypt(key, box, binding);
    :- Need(plaintext.Some? && |plaintext.value| == |box.ciphertext|);
    Ok(plaintext.value)
  }

  /** Authenticity of one box: it opens under at most one associated data. */
  ghost predicate OpensUnderOneBinding(aead: Aead, key: Bytes, box: Sealed) {
    forall b, b' :: Unseal(aead, key, box, b).Ok? && Unseal(aead, key, box, b').Ok? ==> b == b'
  }

  /**
   * A wrap that opens for record `x` opens for record `y` if and only if they agree on
   * kind, SID, account, credential, public key and salt.
   */
  lemma WrapIsBoundToItsRecord(valid: WString -> bool, aead: Aead, key: Bytes, box: Sealed, x: Bound, y: Bound)
    requires Bindable(valid, x) && Bindable(valid, y)
    requires OpensUnderOneBinding(aead, key, box) && Unseal(aead, key, box, BindingBytes(x)).Ok?
    ensures Unseal(aead, key, box, BindingBytes(y)).Ok? <==> x == y
  {
    if Unseal(aead, key, box, BindingBytes(y)).Ok? {
      assert BindingBytes(x) == BindingBytes(y);
      BindingInjective(valid, x, y);
    }
  }

  // ----- Unlocking

  /** `unlockAccount` after the key answered: the wrap of the key that was touched, under its own binding. */
  function Unlock(valid: WString -> bool, aead: Aead, p: AccountProfile, proof: Touch.Proof): Result<Bytes> {
    var record :- ProfileForKey(p, proof.index);
    var binding :- Binding(valid, record.bound);
    Unseal(aead, proof.secret, record.password, binding)
  }

  /** The keys that may answer: position `i` is the key of record `i`. */
  function Keys(p: AccountProfile): (keys: seq<KeyProfile>)
    ensures |keys| == |p.additional| + 1
    ensures forall i | 0 <= i <= |p.additional| :: keys[i] == ProfileForKey(p, i).value.bound.key
  {
    [p.bound.key] + seq(|p.additional|, i requires 0 <= i < |p.additional| => p.additional[i].key)
  }

  /**
   * `unlockAccount`: it fails unless a key released its secret in this very call, and then it
   * opens the wrap of exactly the key whose fresh touch was verified.
   */
  method UnlockAccount(hw: Touch.Hardware, valid: WString -> bool, aead: Aead, p: AccountProfile, timeout: int)
    returns (r: Result<Bytes>)
    requires hw.Valid() && hw.open.None?
    modifies hw
    ensures hw.Valid() && hw.open.None? && old(hw.log) <= hw.log
    ensures if Touch.Released(hw.log, |old(hw.log)|)
            then exists proof ::
                Touch.Justified(hw.log, |old(hw.log)|, Keys(p), proof) && r == Unlock(valid, aead, p, proof)
            else r.Err?
  {
    var keys := [p.bound.key];
    for i := 0 to |p.additional|
      invariant keys == Keys(p)[..i + 1]
    {
      keys := keys + [p.additional[i].key];
    }
    assert keys == Keys(p);
    var proof, deadline := Touch.TouchAnyKey(hw, keys, timeout);
    if proof.None? { return Err; }
    r := Unlock(valid, aead, p, proof.value);
  }

  // ----- The public key file

  /** "SWT" followed by version 1. */
  const TEST_MAGIC: Bytes := [83, 87, 84, 1]

  function TestKey(b: Bytes): Result<KeyProfile> {
    if TEST_MAGIC <= b then ReadKey(b, 4) else Err
  }

  method ParseTestProfile(b: Bytes) returns (r: Result<KeyProfile>)
    ensures r == TestKey(b)
  {
    if |b| < 8 || b[..4] != TEST_MAGIC {
      assert TEST_MAGIC <= b ==> b[..4] == TEST_MAGIC;
      return Err;
    }
    var reader := new Reader(b);
    var _ := reader.Take(4);
    r := ReadKeyFields(reader);
  }

  /** A key file is accepted exactly if it is the magic followed by the key it yields, with nothing left over. */
  lemma TestKeyRoundTrip(b: Bytes, key: KeyProfile)
    ensures TestKey(b) == Ok(key) <==> 16 <= |key.credential| <= 2048 && b == [83, 87, 84, 1] + KeyBytes(key)
  {
    if 16 <= |key.credential| <= 2048 && b == TEST_MAGIC + KeyBytes(key) {
      KeyFields(b, TEST_MAGIC, key);
      KeyOfReads(b, 4, key);
    }
    if TestKey(b) == Ok(key) {
      KeyRead(b, 4, key);
      assert b[..4] == TEST_MAGIC;
    }
  }

  // ----- Enrollment

  /** Everything `enroll` gets from files, dialogs, Windows and the keys. */
  datatype Request = Request(
    usePin: bool, first: Bytes, second: Option<Bytes>,
    sid: WString, account: WString, profileExists: bool,
    entered: Option<WString>,             // the whole credential buffer, unless the dialog was canceled
    accepted: bool,                       // Windows accepted the credential for this SID
    firstTouched: bool, secondTouched: bool,
    firstNonce: Bytes12, secondNonce: Bytes12,
    storable: bool)                       // the protected file could be written and read back

  const MAX_ACCOUNT: nat := 513

  /** The entered text with its terminator, as the bytes that get sealed. */
  function Plaintext(entered: WString): (b: Bytes)
    requires Length(entered) < |entered|
  {
    ToBytes(entered[..Length(entered) + 1])
  }

  lemma PlaintextIsWellFormed(entered: WString)
    requires 0 < Length(entered) < |entered| && |Plaintext(entered)| <= 8192
    ensures WellFormedPassword(Plaintext(entered))
    ensures FromBytes(Plaintext(entered)) == entered[..Length(entered)] + [0]
  {
    var text := entered[..Length(entered) + 1];
    assert text == entered[..Length(entered)] + [0];
    FromToBytes(text);
    LengthUnique(text, Length(entered));
  }

  /** Sealing works and the box opens again, under the same key and binding. */
  ghost predicate SealsBack(aead: Aead, secret: Bytes, nonce: Bytes12, plaintext: Bytes, binding: Bytes) {
    var box := Seal(aead, secret, nonce, plaintext, binding);
    box.Ok? && Unseal(aead, secret, box.value, binding) == Ok(plaintext)
  }

  function BoundFor(q: Request, key: KeyProfile): Bound {
    Bound(if q.usePin then WINDOWS_PIN else MICROSOFT_PASSWORD, q.sid, q.account, key)
  }

  /** A key file that can be enrolled for this user. */
  ghost predicate Enrollable(valid: WString -> bool, aead: Aead, hmac: KeyProfile -> Bytes32, q: Request,
                             file: Bytes, nonce: Bytes12, plaintext: Bytes) {
    TestKey(file).Ok? &&
    var key := TestKey(file).value;
    Bindable(valid, BoundFor(q, key)) && SealsBack(aead, hmac(key), nonce, plaintext, BindingBytes(BoundFor(q, key)))
  }

  /** This key file holds a key, its record can be bound, and what is sealed for it opens again. */
  ghost predicate Seals(valid: WString -> bool, aead: Aead, hmac: KeyProfile -> Bytes32, q: Request,
                        file: Bytes, nonce: Bytes12)
    requires q.entered.Some? && Length(q.entered.value) < |q.entered.value|
  {
    Enrollable(valid, aead, hmac, q, file, nonce, Plaintext(q.entered.value))
  }

  /** The requests that complete: the exact conditions under which a profile is stored. */
  ghost predicate Completes(valid: WString -> bool, aead: Aead, hmac: KeyProfile -> Bytes32, q: Request) {
    && !q.profileExists && |q.account| <= MAX_ACCOUNT && q.entered.Some? && q.accepted && q.storable
    && 0 < Length(q.entered.value) < |q.entered.value|
    && var plaintext := Plaintext(q.entered.value);
    && |plaintext| <= 8192
    && q.firstTouched && Enrollable(valid, aead, hmac, q, q.first, q.firstNonce, plaintext)
    && (q.second.Some? ==>
          && q.secondTouched && Enrollable(valid, aead, hmac, q, q.second.value, q.secondNonce, plaintext)
          && TestKey(q.first).value.credential != TestKey(q.second.value).value.credential)
  }

  /** Seal for one record and read the box back, as `enroll` does for each key. */
  method SealFor(valid: WString -> bool, aead: Aead, secret: Bytes32, bound: Bound, nonce: Bytes12, plaintext: Bytes)
    returns (r: Result<Sealed>)
    ensures r.Ok? <==> Bindable(valid, bound) && SealsBack(aead, secret, nonce, plaintext, BindingBytes(bound))
    ensures r.Ok? ==> r == Seal(aead, secret, nonce, plaintext, BindingBytes(bound))
  {
    var binding := ProfileBinding(valid, bound);
    if binding.Err? { return Err; }
    r := Seal(aead, secret, nonce, plaintext, binding.value);
    if r.Err? { return Err; }
    var check := Unseal(aead, secret, r.value, binding.value);
    if check.Err? { return Err; }
    var same := Equal(check.value, plaintext);
    if !same { return Err; }
  }

  /** The wrap of key `i` opens with that key's secret to the enrolled text. */
  ghost predicate Opens(valid: WString -> bool, aead: Aead, hmac: KeyProfile -> Bytes32, p: AccountProfile, i: nat,
                        plaintext: Bytes) {
    i <= |p.additional| &&
        Unlock(valid, aead, p, Touch.Proof(i, hmac(ProfileForKey(p, i).value.bound.key))) == Ok(plaintext)
  }

  lemma SealedOpens(valid: WString -> bool, aead: Aead, hmac: KeyProfile -> Bytes32, p: AccountProfile, i: nat,
                    plaintext: Bytes)
    requires i <= |p.additional|
    requires var record := ProfileForKey(p, i).value;
             Bindable(valid, record.bound) &&
             Unseal(aead, hmac(record.bound.key), record.password, BindingBytes(record.bound)) == Ok(plaintext)
    ensures Opens(valid, aead, hmac, p, i, plaintext)
  {
  }

  /** The profile before it is saved: the first key's record, and the second key's if there is one. */
  method BuildProfile(valid: WString -> bool, aead: Aead, hmac: KeyProfile -> Bytes32, q: Request, plaintext: Bytes)
    returns (r: Result<AccountProfile>)
    ensures r.Ok? <==>
              && q.firstTouched && Enrollable(valid, aead, hmac, q, q.first, q.firstNonce, plaintext)
              && (q.second.Some? ==>
                    && q.secondTouched && Enrollable(valid, aead, hmac, q, q.second.value, q.secondNonce, plaintext)
                    && TestKey(q.first).value.credential != TestKey(q.second.value).value.credential)
    ensures r.Ok? ==>
              && r.value.bound == Bound(if q.usePin then 2 else 1, q.sid, q.account, TestKey(q.first).value)
              && |r.value.additional| == (if q.second.Some? then 1 else 0)
              && (forall i | 0 <= i <= |r.value.additional| ::
                    && Opens(valid, aead, hmac, r.value, i, plaintext)
                    && Bindable(valid, ProfileForKey(r.value, i).value.bound))
              && (q.second.Some? ==> r.value.additional[0].key == TestKey(q.second.value).value)
  {
    var key := ParseTestProfile(q.first);
    if key.Err? || !q.firstTouched { return Err; }
    var bound := BoundFor(q, key.value);
    var password := SealFor(valid, aead, hmac(key.value), bound, q.firstNonce, plaintext);
    if password.Err? { return Err; }
    var p := AccountProfile(bound, password.value, []);
    if q.second.Some? {
      var second := ParseTestProfile(q.second.value);
      if second.Err? || !q.secondTouched { return Err; }
      var duplicate := Equal(key.value.credential, second.value.credential);
      if duplicate { return Err; }
      var secondBound := BoundFor(q, second.value);
      var secondPassword := SealFor(valid, aead, hmac(second.value), secondBound, q.secondNonce, plaintext);
      if secondPassword.Err? { return Err; }
      p := p.(additional := [AdditionalKey(second.value, secondPassword.value)]);
      assert ProfileForKey(p, 1).value == AccountProfile(secondBound, secondPassword.value, []);
      SealedOpens(valid, aead, hmac, p, 1, plaintext);
    }
    assert ProfileForKey(p, 0).value == AccountProfile(bound, password.value, []);
    SealedOpens(valid, aead, hmac, p, 0, plaintext);
    r := Ok(p);
  }

  /**
   * The stored bytes load for the user and the keys of the request, and every enrolled key opens
   * its wrap to exactly the text that was entered, in the form the sign-in worker accepts.
   */
  ghost predicate EnrolledAs(valid: WString -> bool, aead: Aead, hmac: KeyProfile -> Bytes32, q: Request,
                             stored: Bytes) {
    && Decode(valid, stored).Ok? && TestKey(q.first).Ok? && (q.second.Some? ==> TestKey(q.second.value).Ok?)
    && q.entered.Some? && Length(q.entered.value) < |q.entered.value|
    && var p := Decode(valid, stored).value;
    && p.bound == BoundFor(q, TestKey(q.first).value)
    && |p.additional| == (if q.second.Some? then 1 else 0)
    && (q.second.Some? ==> p.additional[0].key == TestKey(q.second.value).value)
    && WellFormedPassword(Plaintext(q.entered.value))
    && forall i | 0 <= i <= |p.additional| :: Opens(valid, aead, hmac, p, i, Plaintext(q.entered.value))
  }

  /**
   * `enroll`, up to the bytes that are stored. It completes exactly for the requests above;
   * then the stored bytes load again, for the same user and keys, and touching any enrolled
   * key recovers exactly the text that was entered, in the form the sign-in worker accepts.
   */
  method Enroll(valid: WString -> bool, aead: Aead, hmac: KeyProfile -> Bytes32, q: Request) returns (r: Result<Bytes>)
    ensures r.Ok? <==> Completes(valid, aead, hmac, q)
    ensures r.Ok? ==> EnrolledAs(valid, aead, hmac, q, r.value)
    ensures r.Ok? ==>
              && !q.profileExists && |q.account| <= 513 && q.entered.Some? && q.accepted && q.storable
              && q.firstTouched && (q.second.Some? ==> q.secondTouched)
              && 0 < Length(q.entered.value) < |q.entered.value|
              && TestKey(q.first).Ok? && (q.second.Some? ==> TestKey(q.second.value).Ok?)
    ensures r.Ok? ==>
              var p := Decode(valid, r.value).value;
              && p.bound == Bound(if q.usePin then 2 else 1, q.sid, q.account, TestKey(q.first).value)
              && |p.additional| == (if q.second.Some? then 1 else 0)
              && (q.second.Some? ==>
                    && p.additional[0].key == TestKey(q.second.value).value
                    && p.additional[0].key.credential != p.bound.key.credential)
    ensures r.Err? ==>
              || q.profileExists || |q.account| > 513 || q.entered.None? || !q.accepted || !q.storable
              || !q.firstTouched || (q.second.Some? && !q.secondTouched)
              || Length(q.entered.value) == 0 || Length(q.entered.value) > 4095
              || Length(q.entered.value) == |q.entered.value|
              || !Seals(valid, aead, hmac, q, q.first, q.firstNonce)
              || (q.second.Some? &&
                  (!Seals(valid, aead, hmac, q, q.second.value, q.secondNonce) ||
                   TestKey(q.first).value.credential == TestKey(q.second.value).value.credential))
  {
    if q.profileExists || |q.account| > MAX_ACCOUNT || q.entered.None? || !q.accepted { return Err; }
    var length := Length(q.entered.value);
    if length == 0 || length >= |q.entered.value| { return Err; }
    var plaintext := Plaintext(q.entered.value);
    var p := BuildProfile(valid, aead, hmac, q, plaintext);
    if p.Err? || !q.storable { return Err; }
    var stored := EncodeProfile(valid, p.value);
    EnrolledEncodes(valid, aead, hmac, p.value, plaintext);
    if stored.Err? { return Err; }
    RoundTrip(valid, stored.value, p.value);
    var reloaded := DecodeProfile(valid, stored.value);
    if reloaded.Err? || reloaded.value.bound.sid != q.sid { assert false; }
    var again := EncodeProfile(valid, reloaded.value);
    var same := Equal(stored.value, again.value);
    if !same { assert false; }
    PlaintextIsWellFormed(q.entered.value);
    r := stored;
  }

  /**
   * From enrollment to sign-in. The touch of any enrolled key, answered with that key's secret,
   * unlocks exactly the entered text; the worker keeps it; and an undisturbed sign-in with it
   * releases it, for every delay, if and only if it is taken within 30000 ms.
   */
  lemma EnrolledKeySignsIn(valid: WString -> bool, aead: Aead, hmac: KeyProfile -> Bytes32, q: Request, stored: Bytes,
                           log: seq<Touch.Call>, from: nat, proof: Touch.Proof,
                           now: nat, touch: nat, wait: nat, pack: nat)
    requires EnrolledAs(valid, aead, hmac, q, stored)
    requires var keys := Keys(Decode(valid, stored).value);
             Touch.Justified(log, from, keys, proof) && proof.secret == hmac(keys[proof.index])
    ensures var p, plaintext := Decode(valid, stored).value, Plaintext(q.entered.value);
            && Unlock(valid, aead, p, proof) == Ok(plaintext)
            && Worker.Checked(Some(plaintext)) == Some(plaintext)
            && var end := Runs.Execute(Runs.InitialSystem(true, now), Runs.SignIn(touch, wait, pack, plaintext));
            if wait <= Worker.READY_LIFETIME then Runs.EndsWith(end, Runs.Released(1, plaintext)) else end.None?
  {
    var p, plaintext := Decode(valid, stored).value, Plaintext(q.entered.value);
    assert Opens(valid, aead, hmac, p, proof.index, plaintext);
    assert proof == Touch.Proof(proof.index, hmac(ProfileForKey(p, proof.index).value.bound.key));
    Runs.SignInCompletes(now, touch, wait, pack, plaintext);
  }

  /**
   * What a worker reports when the enrolled keys answer with their own secrets: nothing, or what one
   * of them unlocks.
   */
  ghost predicate ReportsUnlock(valid: WString -> bool, aead: Aead, hmac: KeyProfile -> Bytes32, p: AccountProfile,
                                l: Runs.Label) {
    l.WorkerFinish? && l.unlocked.Some? ==>
      exists proof: Touch.Proof ::
        && proof.index <= |p.additional| && proof.secret == hmac(Keys(p)[proof.index])
        && Unlock(valid, aead, p, proof) == Ok(l.unlocked.value)
  }

  /**
   * The same for every interleaving: whatever else happens in a run, if its workers report only
   * what enrolled keys unlock, every released secret is exactly the text that was enrolled.
   */
  lemma OnlyEnrolledTextIsReleased(valid: WString -> bool, aead: Aead, hmac: KeyProfile -> Bytes32, q: Request,
                                   stored: Bytes, events: bool, now: nat, labels: seq<Runs.Label>,
                                   s: Runs.System, k: nat)
    requires EnrolledAs(valid, aead, hmac, q, stored)
    requires Runs.Execute(Runs.InitialSystem(events, now), labels) == Some(s)
    requires forall l | l in labels :: ReportsUnlock(valid, aead, hmac, Decode(valid, stored).value, l)
    requires k < |s.log| && s.log[k].event.Released?
    ensures s.log[k].event.secret == Plaintext(q.entered.value)
  {
    var p, plaintext := Decode(valid, stored).value, Plaintext(q.entered.value);
    var l := Runs.ReleaseWasReported(events, now, labels, s, k);
    assert ReportsUnlock(valid, aead, hmac, p, l);
    var proof: Touch.Proof :|
      && proof.index <= |p.additional| && proof.secret == hmac(Keys(p)[proof.index])
      && Unlock(valid, aead, p, proof) == Ok(l.unlocked.value);
    assert Opens(valid, aead, hmac, p, proof.index, plaintext);
    assert proof == Touch.Proof(proof.index, hmac(ProfileForKey(p, proof.index).value.bound.key));
  }

  /** A built profile encodes exactly if the credential fits the ciphertext limit. */
  lemma EnrolledEncodes(valid: WString -> bool, aead: Aead, hmac: KeyProfile -> Bytes32, p: AccountProfile,
                        plaintext: Bytes)
    requires |p.additional| <= 1
    requires forall i | 0 <= i <= |p.additional| ::
               Opens(valid, aead, hmac, p, i, plaintext) && Bindable(valid, ProfileForKey(p, i).value.bound)
    requires |p.additional| == 1 ==> Credential(p, 0) != Credential(p, 1)
    ensures Encode(valid, p).Ok? <==> |plaintext| <= 8192
  {
    assert Opens(valid, aead, hmac, p, 0, plaintext);
    if p.additional != [] {
      assert Opens(valid, aead, hmac, p, 1, plaintext);
      var c := Single(valid);
      if |plaintext| <= 8192 {
        TwoRecordsEncode(c, p);
      } else {
        assert c.encode(ProfileForKey(p, 0).value).Err?;
        assert EncodeRecords(c, p, 1).Err?;
        RecordsFail(c, p, 1, 2);
      }
    }
  }

  lemma TwoRecordsEncode(c: Codec, p: AccountProfile)
    requires |p.additional| == 1 && Credential(p, 0) != Credential(p, 1)
    requires forall i | 0 <= i <= 1 ::
               c.encode(ProfileForKey(p, i).value).Ok? && |c.encode(ProfileForKey(p, i).value).value| <= MAX_RECORD
    ensures EncodeWith(c, p).Ok?
  {
    var first, second := c.encode(ProfileForKey(p, 0).value).value, c.encode(ProfileForKey(p, 1).value).value;
    assert NewCredential(p, 0) && NewCredential(p, 1);
    assert EncodeRecords(c, p, 1) == Ok([] + (U32(|first|) + first));
    assert EncodeRecords(c, p, 2) == Ok([] + (U32(|first|) + first) + (U32(|second|) + second));
  }
}
