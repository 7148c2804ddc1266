/** The encoder and decoder of src/profile.cpp as they run: a growing buffer, cursors and loops. */
module ProfileCodec {
  import opened Basics
  import opened Wire
  import opened Profile

  method ProfileBinding(valid: WString -> bool, x: Bound) returns (r: Result<Bytes>)
    ensures r == Binding(valid, x)
    ensures r.Ok? <==>
              && valid(x.sid) && ACCOUNT_PREFIX <= x.account && x.kind in {1, 2}
              && 1 <= |x.sid| <= 512 && 0 !in x.sid && 1 <= |x.account| <= 512 && 0 !in x.account
              && 16 <= |x.key.credential| <= 2048
  {
    if !valid(x.sid) || !(ACCOUNT_PREFIX <= x.account) { return Err; }
    if |x.key.credential| < 16 || |x.key.credential| > 2048 { return Err; }
    if x.kind != MICROSOFT_PASSWORD && x.kind != WINDOWS_PIN { return Err; }
    var out := new Buffer(SINGLE_MAGIC + [x.kind]);
    var ok := out.PutString(x.sid);
    if !ok { return Err; }
    ok := out.PutString(x.account);
    if !ok { return Err; }
    PutKey(out, x.key);
    var head := SINGLE_MAGIC + [x.kind];
    Append(head + StringBytes(x.sid), StringBytes(x.account), KeyBytes(x.key));
    Append(head, StringBytes(x.sid), StringBytes(x.account) + KeyBytes(x.key));
    r := Ok(out.contents);
  }

  method PutKey(out: Buffer, key: KeyProfile)
    requires |key.credential| <= 2048
    modifies out
    ensures out.contents == old(out.contents) + KeyBytes(key)
  {
    ghost var before := out.contents;
    var _ := out.Put32(|key.credential|);
    out.PutBytes(key.credential);
    out.PutBytes(key.publicKey);
    out.PutBytes(key.salt);
    var size := U32(|key.credential|);
    Append(before + size + key.credential, key.publicKey, key.salt);
    Append(before + size, key.credential, key.publicKey + key.salt);
    Append(before, size, key.credential + (key.publicKey + key.salt));
  }

  method EncodeRecordBytes(valid: WString -> bool, p: AccountProfile) returns (r: Result<Bytes>)
    ensures r == EncodeSingle(valid, p)
  {
    var binding := ProfileBinding(valid, p.bound);
    if binding.Err? || p.password.ciphertext == [] || |p.password.ciphertext| > 8192 { return Err; }
    var out := new Buffer([]);
    var ok := out.Put32(|binding.value|);
    out.PutBytes(binding.value);
    PutPassword(out, p.password);
    assert out.contents == U32(|binding.value|) + binding.value + PasswordBytes(p.password);
    Append(U32(|binding.value|), binding.value, PasswordBytes(p.password));
    r := Ok(out.contents);
  }

  method PutPassword(out: Buffer, password: Sealed)
    requires |password.ciphertext| <= 8192
    modifies out
    ensures out.contents == old(out.contents) + PasswordBytes(password)
  {
    ghost var before := out.contents;
    out.PutBytes(password.nonce);
    out.PutBytes(password.tag);
    var _ := out.Put32(|password.ciphertext|);
    out.PutBytes(password.ciphertext);
    var length := U32(|password.ciphertext|);
    Append(before + password.nonce + password.tag, length, password.ciphertext);
    Append(before + password.nonce, password.tag, length + password.ciphertext);
    Append(before, password.nonce, password.tag + (length + password.ciphertext));
  }

  /** The scan for a duplicate among the credentials already written. */
  method IsNew(p: AccountProfile, index: nat, identities: seq<Bytes>) returns (unseen: bool)
    requires index <= |p.additional| && |identities| == index
    requires forall k | 0 <= k < index :: identities[k] == Credential(p, k)
    ensures unseen == NewCredential(p, index)
  {
    for k := 0 to |identities|
      invariant forall j | 0 <= j < k :: identities[j] != Credential(p, index)
    {
      var same := Equal(identities[k], Credential(p, index));
      if same { return false; }
    }
    unseen := true;
  }

  method EncodeProfile(valid: WString -> bool, p: AccountProfile) returns (r: Result<Bytes>)
    ensures r == Encode(valid, p)
  {
    if p.additional == [] {
      r := EncodeRecordBytes(valid, p);
      return;
    }
    if |p.additional| >= 8 { return Err; }
    var out := new Buffer(MULTI_MAGIC);
    var ok := out.Put32(|p.additional| + 1);
    ok := PutRecords(valid, Single(valid), p, out);
    if !ok { return Err; }
    assert out.contents == MULTI_MAGIC +
        (U32(|p.additional| + 1) + EncodeRecords(Single(valid), p, |p.additional| + 1).value);
    if |out.contents| > MAX_PROFILE { return Err; }
    r := Ok(out.contents);
  }

  ghost predicate Implements(c: Codec, valid: WString -> bool) {
    forall x {:trigger EncodeSingle(valid, x)} :: c.encode(x) == EncodeSingle(valid, x)
  }

  /** The loop over the enrolled keys. */
  method PutRecords(valid: WString -> bool, ghost c: Codec, p: AccountProfile, out: Buffer) returns (ok: bool)
    requires Implements(c, valid)
    modifies out
    ensures var records := EncodeRecords(c, p, |p.additional| + 1);
            ok == records.Ok? && (ok ==> out.contents == old(out.contents) + records.value)
  {
    ghost var written: Bytes := [];
    var identities: seq<Bytes> := [];
    for i := 0 to |p.additional| + 1
      invariant |identities| == i && forall k | 0 <= k < i :: identities[k] == Credential(p, k)
      invariant EncodeRecords(c, p, i) == Ok(written) && out.contents == old(out.contents) + written
    {
      var unseen := IsNew(p, i, identities);
      var frame := FrameRecord(valid, c, p, i, unseen);
      RecordsNext(c, p, i, written, frame);
      if frame.Err? {
        RecordsFail(c, p, i + 1, |p.additional| + 1);
        return false;
      }
      identities := identities + [Credential(p, i)];
      Append(old(out.contents), written, frame.value);
      out.PutBytes(frame.value);
      written := written + frame.value;
    }
    ok := true;
  }

  lemma RecordsNext(c: Codec, p: AccountProfile, n: nat, before: Bytes, frame: Result<Bytes>)
    requires n <= |p.additional| && EncodeRecords(c, p, n) == Ok(before) && EncodeRecord(c, p, n) == frame
    ensures EncodeRecords(c, p, n + 1) == if frame.Ok? then Ok(before + frame.value) else Err
  {
  }

  /** `put32` and `putBytes` of one encoded record. */
  method FrameRecord(valid: WString -> bool, ghost c: Codec, p: AccountProfile, index: nat, unseen: bool)
    returns (r: Result<Bytes>)
    requires Implements(c, valid) && index <= |p.additional| && unseen == NewCredential(p, index)
    ensures r == EncodeRecord(c, p, index)
  {
    if !unseen { return Err; }
    var encoded := EncodeRecordBytes(valid, ProfileForKey(p, index).value);
    if encoded.Err? { return Err; }
    var out := new Buffer([]);
    var ok := out.Put32(|encoded.value|);
    out.PutBytes(encoded.value);
    assert out.contents == U32(|encoded.value|) + encoded.value;
    r := Ok(out.contents);
  }

  /** A failing record fails the whole encoding. */
  lemma {:induction false} RecordsFail(c: Codec, p: AccountProfile, n: nat, m: nat)
    requires n <= m <= |p.additional| + 1 && EncodeRecords(c, p, n).Err?
    ensures EncodeRecords(c, p, m).Err?
  {
    if n == m {
    } else {
      RecordsFail(c, p, n, m - 1);
    }
  }

  lemma {:induction false} ParseFails(c: Codec, b: Bytes, n: nat, m: nat)
    requires n <= m && ParseRecords(c, b, n).Err?
    ensures ParseRecords(c, b, m).Err?
  {
    if n == m {
    } else {
      ParseFails(c, b, n, m - 1);
    }
  }

  method ReadBinding(valid: WString -> bool, bytes: Bytes) returns (r: Result<Bound>)
    ensures r == DecodeBinding(valid, bytes)
  {
    var bound := ReadBindingFields(bytes);
    if bound.Err? { return Err; }
    var canonical := ProfileBinding(valid, bound.value);
    if canonical.Err? { return Err; }
    var same := Equal(canonical.value, bytes);
    r := if same then bound else Err;
  }

  method ReadBindingFields(bytes: Bytes) returns (r: Result<Bound>)
    ensures r == ParseBinding(bytes)
  {
    var reader := new Reader(bytes);
    var magic := reader.Take(4);
    if magic.Err? { return Err; }
    var same := Equal(magic.value[..3], SINGLE_MAGIC);
    if !same || (magic.value[3] != 1 && magic.value[3] != 2) { return Err; }
    var sid := reader.ReadString();
    if sid.Err? { return Err; }
    var account := reader.ReadString();
    if account.Err? { return Err; }
    var key := ReadKeyFields(reader);
    if key.Err? { return Err; }
    r := Ok(Bound(magic.value[3], sid.value, account.value, key.value));
  }

  method ReadKeyFields(reader: Reader) returns (r: Result<KeyProfile>)
    modifies reader
    ensures r == ReadKey(reader.data, old(reader.position))
  {
    var size := reader.ReadNumber();
    if size.Err? || size.value < 16 || size.value > 2048 { return Err; }
    var credential := reader.Take(size.value);
    if credential.Err? { return Err; }
    var publicKey := reader.Take(64);
    if publicKey.Err? { return Err; }
    var salt := reader.Take(32);
    if salt.Err? || reader.position != |reader.data| { return Err; }
    r := Ok(KeyProfile(credential.value, publicKey.value, salt.value));
  }

  method ReadPasswordFields(reader: Reader) returns (r: Result<Sealed>)
    modifies reader
    ensures r == ReadPassword(reader.data, old(reader.position))
  {
    var nonce := reader.Take(12);
    if nonce.Err? { return Err; }
    var tag := reader.Take(16);
    if tag.Err? { return Err; }
    var size := reader.ReadNumber();
    if size.Err? || size.value == 0 || size.value > 8192 { return Err; }
    var ciphertext := reader.Take(size.value);
    if ciphertext.Err? || reader.position != |reader.data| { return Err; }
    r := Ok(Sealed(nonce.value, tag.value, ciphertext.value));
  }

  method DecodeRecord(valid: WString -> bool, b: Bytes) returns (r: Result<AccountProfile>)
    ensures r == DecodeSingle(valid, b)
  {
    if |b| > MAX_RECORD { return Err; }
    var outer := new Reader(b);
    var size := outer.ReadNumber();
    if size.Err? || size.value > 8192 { return Err; }
    var binding := outer.Take(size.value);
    if binding.Err? { return Err; }
    var bound := ReadBinding(valid, binding.value);
    if bound.Err? { return Err; }
    var password := ReadPasswordFields(outer);
    if password.Err? { return Err; }
    r := Ok(AccountProfile(bound.value, password.value, []));
  }

  method StartsMulti(b: Bytes) returns (multi: bool)
    ensures multi == IsMulti(b)
  {
    multi := false;
    if |b| >= 4 {
      multi := Equal(b[..4], MULTI_MAGIC);
      assert b[..4] == MULTI_MAGIC <==> MULTI_MAGIC <= b;
    }
  }

  /** One round of the decoder's loop, at the cursor. */
  method NextRecord(valid: WString -> bool, outer: Reader, profile: AccountProfile, index: nat)
    returns (r: Result<AccountProfile>)
    modifies outer
    ensures match ParseRecord(Single(valid), outer.data, Parsed(old(outer.position), profile), index)
            case Err => r.Err?
            case Ok(after) => r == Ok(after.profile) && outer.position == after.position
  {
    var length := outer.ReadNumber();
    if length.Err? || length.value <= 4 || length.value > MAX_RECORD { return Err; }
    var bytes := outer.Take(length.value);
    if bytes.Err? { return Err; }
    var nested := StartsMulti(bytes.value);
    if nested { return Err; }
    var record := DecodeRecord(valid, bytes.value);
    if record.Err? { return Err; }
    r := Merge(profile, record.value, index);
  }

  method DecodeProfile(valid: WString -> bool, b: Bytes) returns (r: Result<AccountProfile>)
    ensures r == Decode(valid, b)
  {
    var multi := StartsMulti(b);
    if multi {
      r := DecodeRecords(valid, b);
    } else {
      r := DecodeRecord(valid, b);
    }
  }

  /** `decodeProfile` of a multi-key container. */
  method DecodeRecords(valid: WString -> bool, b: Bytes) returns (r: Result<AccountProfile>)
    requires IsMulti(b)
    ensures r == DecodeContainer(Single(valid), b)
  {
    if |b| > MAX_PROFILE { return Err; }
    var outer := new Reader(b);
    var magic := outer.Take(4);
    var count := outer.ReadNumber();
    if count.Err? || count.value < 2 || count.value > 8 { return Err; }
    var profile := ReadRecords(valid, outer, count.value);
    if profile.Err? { return Err; }
    r := CheckCanonical(valid, b, outer.position, profile.value);
  }

  /** Nothing may be left over, and the encoder must write the same bytes. */
  method CheckCanonical(valid: WString -> bool, b: Bytes, position: nat, profile: AccountProfile)
    returns (r: Result<AccountProfile>)
    ensures r == AcceptParsed(Single(valid), b, Parsed(position, profile))
  {
    if position != |b| { return Err; }
    var canonical := EncodeProfile(valid, profile);
    if canonical.Err? { return Err; }
    var same := Equal(canonical.value, b);
    r := if same then Ok(profile) else Err;
  }

  /** The loop over the records of a container, from just behind its count. */
  method ReadRecords(valid: WString -> bool, outer: Reader, count: nat) returns (r: Result<AccountProfile>)
    requires outer.position == 8
    modifies outer
    ensures match ParseRecords(Single(valid), outer.data, count)
            case Err => r.Err?
            case Ok(after) => r == Ok(after.profile) && outer.position == after.position
  {
    var profile := BLANK;
    for i := 0 to count
      invariant ParseRecords(Single(valid), outer.data, i) == Ok(Parsed(outer.position, profile))
    {
      var next := NextRecord(valid, outer, profile, i);
      if next.Err? {
        ParseFails(Single(valid), outer.data, i + 1, count);
        return Err;
      }
      profile := next.value;
    }
    r := Ok(profile);
  }
}
