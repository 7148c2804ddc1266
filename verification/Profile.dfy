/**
 * The account profile of src/profile.cpp: its authenticated binding, the single-record and
 * the multi-key encodings, and the decoder. `valid` stands for `validateSid`, which asks
 * Windows; everything here holds for every such predicate.
 */
module Profile {
  import opened Basics
  import opened Wide
  import opened Wire

  type Bytes64 = b: Bytes | |b| == 64 witness seq(64, _ => 0)
  type Bytes32 = b: Bytes | |b| == 32 witness seq(32, _ => 0)
  type Bytes16 = b: Bytes | |b| == 16 witness seq(16, _ => 0)
  type Bytes12 = b: Bytes | |b| == 12 witness seq(12, _ => 0)

  datatype KeyProfile = KeyProfile(credential: Bytes, publicKey: Bytes64, salt: Bytes32)
  datatype Sealed = Sealed(nonce: Bytes12, tag: Bytes16, ciphertext: Bytes)
  datatype AdditionalKey = AdditionalKey(key: KeyProfile, password: Sealed)

  /** What a wrap is bound to. `kind` is the underlying byte of the enumeration. */
  datatype Bound = Bound(kind: Byte, sid: WString, account: WString, key: KeyProfile)

  datatype AccountProfile = AccountProfile(bound: Bound, password: Sealed, additional: seq<AdditionalKey>)

  const MICROSOFT_PASSWORD: Byte := 1
  const WINDOWS_PIN: Byte := 2

  /** "SWA", and "SWM" followed by version 2. */
  const SINGLE_MAGIC: Bytes := [83, 87, 65]
  const MULTI_MAGIC: Bytes := [83, 87, 77, 2]

  /** L"MicrosoftAccount\\" */
  const ACCOUNT_PREFIX: WString := [77, 105, 99, 114, 111, 115, 111, 102, 116, 65, 99, 99, 111, 117, 110, 116, 92]

  // ----- The binding

  /** The records `profileBinding` accepts. */
  predicate Bindable(valid: WString -> bool, x: Bound) {
    && valid(x.sid) && ACCOUNT_PREFIX <= x.account
    && 16 <= |x.key.credential| <= 2048
    && (x.kind == MICROSOFT_PASSWORD || x.kind == WINDOWS_PIN)
    && Identity(x.sid) && Identity(x.account)
  }

  function BindingBytes(x: Bound): (b: Bytes)
    requires Identity(x.sid) && Identity(x.account) && |x.key.credential| <= 2048
    ensures |b| == 112 + 2 * |x.sid| + 2 * |x.account| + |x.key.credential|
  {
    (SINGLE_MAGIC + [x.kind]) + (StringBytes(x.sid) + (StringBytes(x.account) + KeyBytes(x.key)))
  }

  function KeyBytes(key: KeyProfile): (b: Bytes)
    requires |key.credential| <= 2048
    ensures |b| == 100 + |key.credential|
  {
    U32(|key.credential|) + (key.credential + (key.publicKey + key.salt))
  }

  function Binding(valid: WString -> bool, x: Bound): Result<Bytes> {
    if Bindable(valid, x) then Ok(BindingBytes(x)) else Err
  }

  /** Credential, public key and salt, which must end the bytes. */
  function ReadKey(b: Bytes, p: nat): Result<KeyProfile> {
    var size :- NumberAt(b, p);
    :- Need(16 <= size <= 2048);
    var credential :- TakeAt(b, p + 4, size);
    var publicKey :- TakeAt(b, p + 4 + size, 64);
    var salt :- TakeAt(b, p + 68 + size, 32);
    :- Need(p + 100 + size == |b|);
    Ok(KeyProfile(credential, publicKey, salt))
  }

  /** The part of `decodeProfile` that reads a binding, before it is compared with `profileBinding`. */
  function ParseBinding(b: Bytes): Result<Bound> {
    var magic :- TakeAt(b, 0, 4);
    :- Need(magic[..3] == SINGLE_MAGIC && (magic[3] == 1 || magic[3] == 2));
    var sid :- StringAt(b, 4);
    var account :- StringAt(b, 8 + 2 * |sid|);
    var key :- ReadKey(b, 12 + 2 * |sid| + 2 * |account|);
    Ok(Bound(magic[3], sid, account, key))
  }

  /** What the cursor meets when it reads `x` back from `b`, field by field. */
  ghost predicate ReadsNames(b: Bytes, x: Bound) {
    && TakeAt(b, 0, 4) == Ok(SINGLE_MAGIC + [x.kind])
    && StringAt(b, 4) == Ok(x.sid)
    && StringAt(b, 8 + 2 * |x.sid|) == Ok(x.account)
  }

  ghost predicate ReadsKey(b: Bytes, p: nat, key: KeyProfile) {
    var size := |key.credential|;
    && NumberAt(b, p) == Ok(size)
    && TakeAt(b, p + 4, size) == Ok(key.credential)
    && TakeAt(b, p + 4 + size, 64) == Ok(key.publicKey)
    && TakeAt(b, p + 68 + size, 32) == Ok(key.salt)
    && |b| == p + 100 + size
  }

  lemma KeyOfReads(b: Bytes, p: nat, key: KeyProfile)
    requires ReadsKey(b, p, key) && 16 <= |key.credential| <= 2048
    ensures ReadKey(b, p) == Ok(key)
  {
  }

  lemma ParseOfReads(b: Bytes, x: Bound)
    requires ReadsNames(b, x) && (x.kind == 1 || x.kind == 2)
    requires ReadKey(b, 12 + 2 * |x.sid| + 2 * |x.account|) == Ok(x.key)
    ensures ParseBinding(b) == Ok(x)
  {
  }

  lemma NamesWritten(x: Bound)
    requires Identity(x.sid) && Identity(x.account) && |x.key.credential| <= 2048
    ensures ReadsNames(BindingBytes(x), x)
  {
    NamesAfter(BindingBytes(x), SINGLE_MAGIC + [x.kind], x, KeyBytes(x.key));
  }

  lemma NamesAfter(b: Bytes, head: Bytes, x: Bound, rest: Bytes)
    requires Identity(x.sid) && Identity(x.account) && |head| == 4 && head == SINGLE_MAGIC + [x.kind]
    requires b == head + (StringBytes(x.sid) + (StringBytes(x.account) + rest))
    ensures ReadsNames(b, x)
  {
    NameFields(b, head, x.sid, x.account, rest);
    assert b == [] + (head + (StringBytes(x.sid) + (StringBytes(x.account) + rest)));
    TakeWritten(b, [], head, StringBytes(x.sid) + (StringBytes(x.account) + rest));
  }

  lemma KeyWritten(x: Bound)
    requires Identity(x.sid) && Identity(x.account) && |x.key.credential| <= 2048
    ensures ReadsKey(BindingBytes(x), 12 + 2 * |x.sid| + 2 * |x.account|, x.key)
  {
    var head, b := SINGLE_MAGIC + [x.kind], BindingBytes(x);
    var names := StringBytes(x.sid) + StringBytes(x.account);
    assert b == (head + names) + KeyBytes(x.key);
    KeyFields(b, head + names, x.key);
  }

  lemma NameFields(b: Bytes, before: Bytes, sid: WString, account: WString, rest: Bytes)
    requires Identity(sid) && Identity(account)
    requires b == before + (StringBytes(sid) + (StringBytes(account) + rest))
    ensures StringAt(b, |before|) == Ok(sid)
    ensures StringAt(b, |before| + 4 + 2 * |sid|) == Ok(account)
    ensures b == before + (StringBytes(sid) + StringBytes(account)) + rest
  {
    StringWritten(b, before, sid, StringBytes(account) + rest);
    StringWritten(b, before + StringBytes(sid), account, rest);
    Append(before, StringBytes(sid), StringBytes(account));
  }

  lemma KeyFields(b: Bytes, before: Bytes, key: KeyProfile)
    requires |key.credential| <= 2048 && b == before + KeyBytes(key)
    ensures ReadsKey(b, |before|, key)
  {
    var size := U32(|key.credential|);
    NumberWritten(b, before, |key.credential|, key.credential + (key.publicKey + key.salt));
    TakeWritten(b, before + size, key.credential, key.publicKey + key.salt);
    TakeWritten(b, before + size + key.credential, key.publicKey, key.salt);
    assert key.salt == key.salt + [];
    TakeWritten(b, before + size + key.credential + key.publicKey, key.salt, []);
  }

  lemma ParseOfBinding(valid: WString -> bool, x: Bound)
    requires Bindable(valid, x)
    ensures ParseBinding(BindingBytes(x)) == Ok(x)
  {
    NamesWritten(x);
    KeyWritten(x);
    KeyOfReads(BindingBytes(x), 12 + 2 * |x.sid| + 2 * |x.account|, x.key);
    ParseOfReads(BindingBytes(x), x);
  }

  lemma KeyRead(b: Bytes, p: nat, key: KeyProfile)
    requires ReadKey(b, p) == Ok(key)
    ensures 16 <= |key.credential| <= 2048 && p <= |b| && b == b[..p] + KeyBytes(key)
  {
    var n := |key.credential|;
    NumberRead(b, p);
    assert b[p..] == b[p..p + 4] + (b[p + 4..p + 4 + n] + (b[p + 4 + n..p + 68 + n] + b[p + 68 + n..p + 100 + n]));
  }

  lemma NamesRead(b: Bytes, x: Bound)
    requires ReadsNames(b, x)
    ensures var p := 12 + 2 * |x.sid| + 2 * |x.account|;
            p <= |b| && b[..p] == (SINGLE_MAGIC + [x.kind]) + (StringBytes(x.sid) + StringBytes(x.account))
  {
    var p, q := 8 + 2 * |x.sid|, 12 + 2 * |x.sid| + 2 * |x.account|;
    StringRead(b, 4);
    StringRead(b, p);
    Split(b, 0, 4, q);
    Split(b, 4, p, q);
    assert b[..q] == b[0..q];
  }

  lemma ReadsOfParse(b: Bytes, x: Bound)
    requires ParseBinding(b) == Ok(x)
    ensures ReadsNames(b, x) && ReadKey(b, 12 + 2 * |x.sid| + 2 * |x.account|) == Ok(x.key)
    ensures x.kind == MICROSOFT_PASSWORD || x.kind == WINDOWS_PIN
  {
    var magic := TakeAt(b, 0, 4).value;
    assert magic == magic[..3] + [magic[3]];
  }

  /** The parser by itself accepts no second spelling: what it reads is exactly what is written for it. */
  lemma ParseIsCanonical(b: Bytes, x: Bound)
    requires ParseBinding(b) == Ok(x)
    ensures Identity(x.sid) && Identity(x.account) && 16 <= |x.key.credential| <= 2048 && b == BindingBytes(x)
  {
    ReadsOfParse(b, x);
    var p := 12 + 2 * |x.sid| + 2 * |x.account|;
    KeyRead(b, p, x.key);
    NamesRead(b, x);
    Append(SINGLE_MAGIC + [x.kind], StringBytes(x.sid) + StringBytes(x.account), KeyBytes(x.key));
    Append(StringBytes(x.sid), StringBytes(x.account), KeyBytes(x.key));
  }

  /** The binding determines kind, SID, account, credential, public key and salt. */
  lemma BindingInjective(valid: WString -> bool, x: Bound, y: Bound)
    requires Binding(valid, x).Ok? && Binding(valid, x) == Binding(valid, y)
    ensures x == y
  {
    ParseOfBinding(valid, x);
    ParseOfBinding(valid, y);
  }

  /** The fixed bytes of the format spell what they should. */
  lemma Spelling()
    ensures SINGLE_MAGIC == ['S' as int, 'W' as int, 'A' as int]
    ensures MULTI_MAGIC == ['S' as int, 'W' as int, 'M' as int, 2]
    ensures |ACCOUNT_PREFIX| == |"MicrosoftAccount\\"|
    ensures forall i | 0 <= i < |ACCOUNT_PREFIX| :: ACCOUNT_PREFIX[i] == "MicrosoftAccount\\"[i] as int
  {
  }

  /** A binding by position: magic and kind, SID, account, credential, public key, salt. */
  lemma BindingLayout(x: Bound)
    requires Identity(x.sid) && Identity(x.account) && |x.key.credential| <= 2048
    ensures var b := BindingBytes(x);
            var account := 8 + 2 * |x.sid|;
            var key := account + 4 + 2 * |x.account|;
            var credential := |x.key.credential|;
            && b[..4] == [83, 87, 65, x.kind]
            && b[4..8] == U32(|x.sid|) && b[8..account] == ToBytes(x.sid)
            && b[account..account + 4] == U32(|x.account|) && b[account + 4..key] == ToBytes(x.account)
            && b[key..key + 4] == U32(credential) && b[key + 4..key + 4 + credential] == x.key.credential
            && b[key + 4 + credential..key + 68 + credential] == x.key.publicKey
            && b[key + 68 + credential..] == x.key.salt
  {
    var b, names := BindingBytes(x), StringBytes(x.sid) + StringBytes(x.account);
    Append(StringBytes(x.sid), StringBytes(x.account), KeyBytes(x.key));
    assert b == (SINGLE_MAGIC + [x.kind]) + (names + KeyBytes(x.key));
    NamesLayout(SINGLE_MAGIC + [x.kind], x.sid, x.account, b, KeyBytes(x.key));
    KeyLayout((SINGLE_MAGIC + [x.kind]) + names, x.key, b);
  }

  lemma NamesLayout(head: Bytes, sid: WString, account: WString, b: Bytes, rest: Bytes)
    requires |head| == 4 && |sid| <= 512 && |account| <= 512
    requires b == head + ((StringBytes(sid) + StringBytes(account)) + rest)
    ensures var p := 8 + 2 * |sid|;
            && p + 4 + 2 * |account| <= |b|
            && b[..4] == head && b[4..8] == U32(|sid|) && b[8..p] == ToBytes(sid)
            && b[p..p + 4] == U32(|account|) && b[p + 4..p + 4 + 2 * |account|] == ToBytes(account)
  {
  }

  lemma KeyLayout(before: Bytes, key: KeyProfile, b: Bytes)
    requires |key.credential| <= 2048 && b == before + KeyBytes(key)
    ensures var p, n := |before|, |key.credential|;
            && |b| == p + 100 + n && b[p..p + 4] == U32(n) && b[p + 4..p + 4 + n] == key.credential
            && b[p + 4 + n..p + 68 + n] == key.publicKey && b[p + 68 + n..] == key.salt
  {
  }

  // ----- One record

  const MAX_RECORD: nat := 16384

  function RecordBytes(binding: Bytes, password: Sealed): (b: Bytes)
    ensures |b| == 36 + |binding| + |password.ciphertext|
  {
    U32(|binding|) + (binding + PasswordBytes(password))
  }

  function PasswordBytes(password: Sealed): (b: Bytes)
    ensures |b| == 32 + |password.ciphertext|
  {
    password.nonce + (password.tag + (U32(|password.ciphertext|) + password.ciphertext))
  }

  /** A record by position: binding, nonce, tag, ciphertext, the variable ones after their lengths. */
  lemma RecordLayout(binding: Bytes, password: Sealed)
    ensures var b, p := RecordBytes(binding, password), 4 + |binding|;
            && b[..4] == U32(|binding|) && b[4..p] == binding
            && b[p..p + 12] == password.nonce && b[p + 12..p + 28] == password.tag
            && b[p + 28..p + 32] == U32(|password.ciphertext|) && b[p + 32..] == password.ciphertext
  {
  }

  /** `encodeProfile` of a profile without additional keys. */
  function EncodeSingle(valid: WString -> bool, p: AccountProfile): (r: Result<Bytes>)
    ensures r.Ok? ==> 4 < |r.value| <= MAX_RECORD
  {
    var binding :- Binding(valid, p.bound);
    :- Need(0 < |p.password.ciphertext| <= 8192);
    Ok(RecordBytes(binding, p.password))
  }

  predicate IsMulti(b: Bytes) {
    MULTI_MAGIC <= b
  }

  /** A binding is accepted only if it is what `profileBinding` writes for what was read. */
  function DecodeBinding(valid: WString -> bool, binding: Bytes): (r: Result<Bound>)
    ensures r.Ok? ==> Bindable(valid, r.value) && BindingBytes(r.value) == binding
  {
    var bound :- ParseBinding(binding);
    var canonical :- Binding(valid, bound);
    :- Need(canonical == binding);
    Ok(bound)
  }

  /**
   * Of the bindings that parse, those with a valid SID and a Microsoft account are accepted: the
   * comparison refuses none of them.
   */
  lemma BindingComparison(valid: WString -> bool, b: Bytes, x: Bound)
    requires ParseBinding(b) == Ok(x)
    ensures DecodeBinding(valid, b) == if valid(x.sid) && ACCOUNT_PREFIX <= x.account then Ok(x) else Err
  {
    ReadsOfParse(b, x);
    ParseIsCanonical(b, x);
  }

  /** Nonce, tag and ciphertext, which must end the bytes. */
  function ReadPassword(b: Bytes, p: nat): Result<Sealed> {
    var nonce :- TakeAt(b, p, 12);
    var tag :- TakeAt(b, p + 12, 16);
    var size :- NumberAt(b, p + 28);
    :- Need(0 < size <= 8192);
    var ciphertext :- TakeAt(b, p + 32, size);
    :- Need(p + 32 + size == |b|);
    Ok(Sealed(nonce, tag, ciphertext))
  }

  /** The rest of a single record, once its binding is known. */
  function DecodeRest(valid: WString -> bool, b: Bytes, binding: Bytes): (r: Result<AccountProfile>)
    ensures r.Ok? ==> r.value.additional == []
  {
    var bound :- DecodeBinding(valid, binding);
    var password :- ReadPassword(b, 4 + |binding|);
    Ok(AccountProfile(bound, password, []))
  }

  /** `decodeProfile` of bytes that do not start with the multi-key magic. */
  function DecodeSingle(valid: WString -> bool, b: Bytes): (r: Result<AccountProfile>)
    ensures r.Ok? ==> r.value.additional == []
  {
    if |b| > MAX_RECORD then Err else
    var bindingSize :- NumberAt(b, 0);
    :- Need(bindingSize <= 8192);
    var binding :- TakeAt(b, 4, bindingSize);
    DecodeRest(valid, b, binding)
  }

  ghost predicate ReadsBinding(b: Bytes, binding: Bytes) {
    NumberAt(b, 0) == Ok(|binding|) && TakeAt(b, 4, |binding|) == Ok(binding)
  }

  ghost predicate ReadsPassword(b: Bytes, p: nat, password: Sealed) {
    && TakeAt(b, p, 12) == Ok(password.nonce)
    && TakeAt(b, p + 12, 16) == Ok(password.tag)
    && NumberAt(b, p + 28) == Ok(|password.ciphertext|)
    && TakeAt(b, p + 32, |password.ciphertext|) == Ok(password.ciphertext)
    && |b| == p + 32 + |password.ciphertext|
  }

  lemma PasswordReads(b: Bytes, p: nat, password: Sealed)
    ensures ReadPassword(b, p) == Ok(password) <==> ReadsPassword(b, p, password) && 0 < |password.ciphertext| <= 8192
  {
  }

  lemma RecordReads(binding: Bytes, password: Sealed)
    requires |binding| <= 8192 && |password.ciphertext| <= 8192
    ensures ReadsBinding(RecordBytes(binding, password), binding)
    ensures ReadsPassword(RecordBytes(binding, password), 4 + |binding|, password)
  {
    var b := RecordBytes(binding, password);
    var size, length := U32(|binding|), U32(|password.ciphertext|);
    var tail := length + password.ciphertext;
    assert b == [] + (size + (binding + (password.nonce + (password.tag + tail))));
    NumberWritten(b, [], |binding|, binding + (password.nonce + (password.tag + tail)));
    TakeWritten(b, [] + size, binding, password.nonce + (password.tag + tail));
    TakeWritten(b, [] + size + binding, password.nonce, password.tag + tail);
    TakeWritten(b, [] + size + binding + password.nonce, password.tag, tail);
    var before := [] + size + binding + password.nonce + password.tag;
    NumberWritten(b, before, |password.ciphertext|, password.ciphertext);
    assert password.ciphertext == password.ciphertext + [];
    TakeWritten(b, before + length, password.ciphertext, []);
  }

  /** Conversely, bytes that read as a record are what the encoder writes for it. */
  lemma ReadsAreCanonical(b: Bytes, binding: Bytes, password: Sealed)
    requires ReadsBinding(b, binding) && ReadsPassword(b, 4 + |binding|, password)
    ensures b == RecordBytes(binding, password)
  {
    var p, n := 4 + |binding|, |password.ciphertext|;
    NumberRead(b, 0);
    NumberRead(b, p + 28);
    assert b == b[0..4] +
        (b[4..p] + (b[p..p + 12] + (b[p + 12..p + 28] + (b[p + 28..p + 32] + b[p + 32..p + 32 + n]))));
  }

  lemma DecodeOfBinding(valid: WString -> bool, x: Bound)
    requires Bindable(valid, x)
    ensures DecodeBinding(valid, BindingBytes(x)) == Ok(x)
  {
    ParseOfBinding(valid, x);
  }

  lemma DecodeOfReads(valid: WString -> bool, b: Bytes, binding: Bytes, p: AccountProfile)
    requires ReadsBinding(b, binding) && |binding| <= 8192 && |b| <= MAX_RECORD && p.additional == []
    requires DecodeBinding(valid, binding) == Ok(p.bound) && ReadPassword(b, 4 + |binding|) == Ok(p.password)
    ensures DecodeSingle(valid, b) == Ok(p)
  {
  }

  lemma ReadsOfDecode(valid: WString -> bool, b: Bytes) returns (binding: Bytes, p: AccountProfile)
    requires DecodeSingle(valid, b).Ok?
    ensures DecodeSingle(valid, b) == Ok(p) && DecodeBinding(valid, binding) == Ok(p.bound) && p.additional == []
    ensures ReadsBinding(b, binding) && ReadPassword(b, 4 + |binding|) == Ok(p.password)
  {
    p := DecodeSingle(valid, b).value;
    binding := TakeAt(b, 4, NumberAt(b, 0).value).value;
  }

  lemma SingleDecodes(valid: WString -> bool, p: AccountProfile, b: Bytes)
    requires p.additional == [] && EncodeSingle(valid, p) == Ok(b)
    ensures DecodeSingle(valid, b) == Ok(p)
  {
    var binding := BindingBytes(p.bound);
    RecordReads(binding, p.password);
    PasswordReads(b, 4 + |binding|, p.password);
    DecodeOfBinding(valid, p.bound);
    DecodeOfReads(valid, b, binding, p);
  }

  lemma SingleReencodes(valid: WString -> bool, b: Bytes)
    requires DecodeSingle(valid, b).Ok?
    ensures EncodeSingle(valid, DecodeSingle(valid, b).value) == Ok(b)
  {
    var binding, p := ReadsOfDecode(valid, b);
    PasswordReads(b, 4 + |binding|, p.password);
    ReadsAreCanonical(b, binding, p.password);
  }

  /** On single records the decoder and the encoder are inverse to each other. */
  lemma SingleRoundTrip(valid: WString -> bool, b: Bytes, p: AccountProfile)
    requires p.additional == []
    ensures DecodeSingle(valid, b) == Ok(p) <==> EncodeSingle(valid, p) == Ok(b)
  {
    if EncodeSingle(valid, p) == Ok(b) { SingleDecodes(valid, p, b); }
    if DecodeSingle(valid, b) == Ok(p) { SingleReencodes(valid, b); }
  }

  /** The leading length of a single record cannot spell the multi-key magic. */
  lemma SingleIsNotMulti(valid: WString -> bool, p: AccountProfile)
    requires EncodeSingle(valid, p).Ok?
    ensures !IsMulti(EncodeSingle(valid, p).value)
  {
    var b, size := EncodeSingle(valid, p).value, |BindingBytes(p.bound)|;
    assert b[3] == U32(size)[3] == Digit(size, 3);
    assert size / 256 / 256 / 256 == 0;
    assert Digit(size, 3) == Digit(size / 256, 2) == Digit(size / 256 / 256, 1)
        == Digit(size / 256 / 256 / 256, 0) == 0;
  }

  // ----- Several keys, over any encoding of the single records

  const MAX_PROFILE: nat := 60000

  datatype Codec = Codec(encode: AccountProfile -> Result<Bytes>, decode: Bytes -> Result<AccountProfile>)

  function Single(valid: WString -> bool): Codec {
    Codec(p => EncodeSingle(valid, p), b => DecodeSingle(valid, b))
  }

  /** The record codec inverts, and its records are framed and told apart as the container needs. */
  ghost predicate Faithful(c: Codec) {
    && (forall p: AccountProfile :: p.additional == [] ==> EncodesWell(c, p))
    && (forall b :: c.decode(b).Ok? ==> c.decode(b).value.additional == [] && c.encode(c.decode(b).value) == Ok(b))
  }

  ghost predicate EncodesWell(c: Codec, p: AccountProfile) {
    c.encode(p).Ok? ==> var b := c.encode(p).value; c.decode(b) == Ok(p) && 4 < |b| <= MAX_RECORD && !IsMulti(b)
  }

  lemma SingleIsFaithful(valid: WString -> bool)
    ensures Faithful(Single(valid))
  {
    var c := Single(valid);
    forall p: AccountProfile | p.additional == [] ensures EncodesWell(c, p) {
      if c.encode(p).Ok? {
        SingleRoundTrip(valid, c.encode(p).value, p);
        SingleIsNotMulti(valid, p);
      }
    }
    forall b | c.decode(b).Ok? ensures c.decode(b).value.additional == [] && c.encode(c.decode(b).value) == Ok(b) {
      SingleRoundTrip(valid, b, c.decode(b).value);
    }
  }

  /** `profileForKey`: the record of one enrolled key, under the shared identity. */
  function ProfileForKey(p: AccountProfile, index: nat): (r: Result<AccountProfile>)
    ensures r.Ok? <==> index <= |p.additional|
    ensures r.Ok? ==> r.value.additional == []
  {
    if index > |p.additional| then Err else
    Ok(if index == 0 then p.(additional := [])
       else var extra := p.additional[index - 1];
         AccountProfile(p.bound.(key := extra.key), extra.password, []))
  }

  function Credential(p: AccountProfile, index: nat): Bytes
    requires index <= |p.additional|
  {
    ProfileForKey(p, index).value.bound.key.credential
  }

  predicate NewCredential(p: AccountProfile, index: nat)
    requires index <= |p.additional|
  {
    forall k | 0 <= k < index :: Credential(p, k) != Credential(p, index)
  }

  /** The first `n` records, one after the other. */
  function EncodeRecords(c: Codec, p: AccountProfile, n: nat): Result<Bytes>
    requires n <= |p.additional| + 1
  {
    if n == 0 then Ok([]) else
    match EncodeRecords(c, p, n - 1)
    case Err => Err
    case Ok(before) =>
      match EncodeRecord(c, p, n - 1)
      case Err => Err
      case Ok(frame) => Ok(before + frame)
  }

  /** One length-prefixed record, if its credential was not seen before. */
  function EncodeRecord(c: Codec, p: AccountProfile, index: nat): (r: Result<Bytes>)
    requires index <= |p.additional|
    ensures r.Ok? ==> c.encode(ProfileForKey(p, index).value).Ok? && NewCredential(p, index) &&
                      var record := c.encode(ProfileForKey(p, index).value).value; r.value == U32(|record|) + record
  {
    if !NewCredential(p, index) then Err else
    match c.encode(ProfileForKey(p, index).value)
    case Err => Err
    case Ok(record) => Ok(U32(|record|) + record)
  }

  function EncodeWith(c: Codec, p: AccountProfile): Result<Bytes> {
    if p.additional == [] then c.encode(p) else
    :- Need(|p.additional| < 8);
    var records :- EncodeRecords(c, p, |p.additional| + 1);
    var out := MULTI_MAGIC + (U32(|p.additional| + 1) + records);
    :- Need(|out| <= MAX_PROFILE);
    Ok(out)
  }

  datatype Parsed = Parsed(position: nat, profile: AccountProfile)

  function Zeros(n: nat): (b: Bytes)
    ensures |b| == n
  {
    seq(n, _ => 0)
  }

  const BLANK := AccountProfile(Bound(MICROSOFT_PASSWORD, [], [], KeyProfile([], Zeros(64), Zeros(32))),
                                Sealed(Zeros(12), Zeros(16), []), [])

  /** The first record gives the profile; the others must share its identity and kind. */
  function Merge(profile: AccountProfile, record: AccountProfile, index: nat): Result<AccountProfile> {
    if index == 0 then Ok(record) else
    :- Need(record.bound == profile.bound.(key := record.bound.key));
    Ok(profile.(additional := profile.additional + [AdditionalKey(record.bound.key, record.password)]))
  }

  /** One round of the decoder's loop. */
  function ParseRecord(c: Codec, b: Bytes, before: Parsed, index: nat): Result<Parsed> {
    match NumberAt(b, before.position)
    case Err => Err
    case Ok(length) =>
      match TakeAt(b, before.position + 4, length)
      case Err => Err
      case Ok(bytes) =>
        if !(4 < length <= MAX_RECORD) || IsMulti(bytes) then Err else
        match c.decode(bytes)
        case Err => Err
        case Ok(record) =>
          match Merge(before.profile, record, index)
          case Err => Err
          case Ok(profile) => Ok(Parsed(before.position + 4 + length, profile))
  }

  /** The decoder's loop after `n` records. */
  function ParseRecords(c: Codec, b: Bytes, n: nat): Result<Parsed> {
    if n == 0 then Ok(Parsed(8, BLANK)) else
    match ParseRecords(c, b, n - 1)
    case Err => Err
    case Ok(before) => ParseRecord(c, b, before, n - 1)
  }

  function DecodeWith(c: Codec, b: Bytes): Result<AccountProfile> {
    if IsMulti(b) then DecodeContainer(c, b) else c.decode(b)
  }

  function DecodeContainer(c: Codec, b: Bytes): Result<AccountProfile> {
    if |b| > MAX_PROFILE then Err else
    var count :- NumberAt(b, 4);
    :- Need(2 <= count <= 8);
    var parsed :- ParseRecords(c, b, count);
    AcceptParsed(c, b, parsed)
  }

  /** What is left to check once all records were read. */
  function AcceptParsed(c: Codec, b: Bytes, parsed: Parsed): Result<AccountProfile> {
    if parsed.position == |b| && EncodeWith(c, parsed.profile) == Ok(b) then Ok(parsed.profile) else Err
  }

  /** The profile with only its first `n` keys. */
  function FirstKeys(p: AccountProfile, n: nat): AccountProfile
    requires n <= |p.additional| + 1
  {
    if n == 0 then BLANK else p.(additional := p.additional[..n - 1])
  }

  lemma MergeNext(p: AccountProfile, n: nat)
    requires n <= |p.additional|
    ensures Merge(FirstKeys(p, n), ProfileForKey(p, n).value, n) == Ok(FirstKeys(p, n + 1))
  {
    if n > 0 { assert p.additional[..n] == p.additional[..n - 1] + [p.additional[n - 1]]; }
  }

  /** A length-prefixed record written after `before` is read back whole. */
  lemma FrameWritten(b: Bytes, before: Bytes, record: Bytes, rest: Bytes)
    requires |record| <= MAX_RECORD && b == before + ((U32(|record|) + record) + rest)
    ensures NumberAt(b, |before|) == Ok(|record|) && TakeAt(b, |before| + 4, |record|) == Ok(record)
  {
    assert (U32(|record|) + record) + rest == U32(|record|) + (record + rest);
    NumberWritten(b, before, |record|, record + rest);
    TakeWritten(b, before + U32(|record|), record, rest);
  }

  lemma ParseNext(c: Codec, b: Bytes, index: nat, before: Parsed, record: Bytes, single: AccountProfile,
                  merged: AccountProfile)
    requires NumberAt(b, before.position) == Ok(|record|) && 4 < |record| <= MAX_RECORD
    requires TakeAt(b, before.position + 4, |record|) == Ok(record) && !IsMulti(record)
    requires c.decode(record) == Ok(single) && Merge(before.profile, single, index) == Ok(merged)
    ensures ParseRecord(c, b, before, index) == Ok(Parsed(before.position + 4 + |record|, merged))
  {
  }

  /** The record after the first `written` bytes of the container's body. */
  lemma RecordInPlace(b: Bytes, body: Bytes, written: Bytes, record: Bytes)
    requires |b| >= 8 && b[8..] == body && written + (U32(|record|) + record) <= body && |record| <= MAX_RECORD
    ensures NumberAt(b, 8 + |written|) == Ok(|record|) && TakeAt(b, 8 + |written| + 4, |record|) == Ok(record)
  {
    var frame := U32(|record|) + record;
    var rest := body[|written + frame|..];
    assert body == written + frame + rest;
    assert b == (b[..8] + written) + (frame + rest);
    FrameWritten(b, b[..8] + written, record, rest);
  }

  lemma ParseStep(c: Codec, p: AccountProfile, b: Bytes, written: Bytes, record: Bytes, index: nat)
    requires index <= |p.additional| && EncodesWell(c, ProfileForKey(p, index).value)
    requires c.encode(ProfileForKey(p, index).value) == Ok(record)
    requires |b| >= 8 && written + (U32(|record|) + record) <= b[8..]
    ensures ParseRecord(c, b, Parsed(8 + |written|, FirstKeys(p, index)), index) ==
            Ok(Parsed(12 + |written| + |record|, FirstKeys(p, index + 1)))
  {
    RecordInPlace(b, b[8..], written, record);
    MergeNext(p, index);
    ParseNext(c, b, index, Parsed(8 + |written|, FirstKeys(p, index)), record, ProfileForKey(p, index).value,
              FirstKeys(p, index + 1));
  }

  lemma PrefixOfPrefix(a: Bytes, b: Bytes, whole: Bytes)
    requires a + b <= whole
    ensures a <= whole
  {
  }

  lemma {:induction false} ParseOfRecords(c: Codec, p: AccountProfile, b: Bytes, n: nat, upto: Bytes)
    requires n <= |p.additional| + 1 && EncodeRecords(c, p, n) == Ok(upto)
    requires forall i | 0 <= i < n :: EncodesWell(c, ProfileForKey(p, i).value)
    requires |b| >= 8 && upto <= b[8..]
    ensures ParseRecords(c, b, n) == Ok(Parsed(8 + |upto|, FirstKeys(p, n)))
  {
    if n == 0 {
    } else {
      var written, record := LastRecord(c, p, n - 1, upto);
      PrefixOfPrefix(written, U32(|record|) + record, b[8..]);
      ParseOfRecords(c, p, b, n - 1, written);
      assert EncodesWell(c, ProfileForKey(p, n - 1).value);
      ParseGrows(c, p, b, n - 1, written, record);
    }
  }

  lemma LastRecord(c: Codec, p: AccountProfile, n: nat, upto: Bytes) returns (written: Bytes, record: Bytes)
    requires n <= |p.additional| && EncodeRecords(c, p, n + 1) == Ok(upto)
    ensures EncodeRecords(c, p, n) == Ok(written) && c.encode(ProfileForKey(p, n).value) == Ok(record)
    ensures upto == written + (U32(|record|) + record)
  {
    written, record := EncodeRecords(c, p, n).value, c.encode(ProfileForKey(p, n).value).value;
  }

  lemma ParseGrows(c: Codec, p: AccountProfile, b: Bytes, n: nat, written: Bytes, record: Bytes)
    requires n <= |p.additional| && EncodesWell(c, ProfileForKey(p, n).value)
    requires c.encode(ProfileForKey(p, n).value) == Ok(record)
    requires |b| >= 8 && written + (U32(|record|) + record) <= b[8..]
    requires ParseRecords(c, b, n) == Ok(Parsed(8 + |written|, FirstKeys(p, n)))
    ensures ParseRecords(c, b, n + 1) == Ok(Parsed(12 + |written| + |record|, FirstKeys(p, n + 1)))
  {
    ParseStep(c, p, b, written, record, n);
  }

  /** What the encoder writes for several keys. */
  lemma Encoded(c: Codec, p: AccountProfile, b: Bytes) returns (records: Bytes)
    requires p.additional != [] && EncodeWith(c, p) == Ok(b)
    ensures 1 <= |p.additional| < 8 && EncodeRecords(c, p, |p.additional| + 1) == Ok(records)
    ensures b == MULTI_MAGIC + (U32(|p.additional| + 1) + records) && |b| <= MAX_PROFILE
  {
    records := EncodeRecords(c, p, |p.additional| + 1).value;
  }

  /** A canonical container whose records were all read is accepted. */
  lemma Decoded(c: Codec, b: Bytes, n: nat, p: AccountProfile)
    requires IsMulti(b) && |b| <= MAX_PROFILE && NumberAt(b, 4) == Ok(n) && 2 <= n <= 8
    requires ParseRecords(c, b, n) == Ok(Parsed(|b|, p)) && EncodeWith(c, p) == Ok(b)
    ensures DecodeWith(c, b) == Ok(p)
  {
  }

  lemma MultiRoundTrip(c: Codec, p: AccountProfile)
    requires Faithful(c) && p.additional != [] && EncodeWith(c, p).Ok?
    ensures DecodeWith(c, EncodeWith(c, p).value) == Ok(p)
  {
    var b := EncodeWith(c, p).value;
    var records := Encoded(c, p, b);
    FaithfulRecords(c, p);
    ContainerParses(c, p, b, records);
    Decoded(c, b, |p.additional| + 1, p);
  }

  lemma FaithfulRecords(c: Codec, p: AccountProfile)
    requires Faithful(c)
    ensures forall i | 0 <= i <= |p.additional| :: EncodesWell(c, ProfileForKey(p, i).value)
  {
  }

  lemma ContainerParses(c: Codec, p: AccountProfile, b: Bytes, records: Bytes)
    requires |p.additional| < 8 && EncodeRecords(c, p, |p.additional| + 1) == Ok(records)
    requires forall i | 0 <= i <= |p.additional| :: EncodesWell(c, ProfileForKey(p, i).value)
    requires b == MULTI_MAGIC + (U32(|p.additional| + 1) + records)
    ensures IsMulti(b) && NumberAt(b, 4) == Ok(|p.additional| + 1)
    ensures ParseRecords(c, b, |p.additional| + 1) == Ok(Parsed(|b|, p))
  {
    var n := |p.additional| + 1;
    NumberWritten(b, MULTI_MAGIC, n, records);
    assert b[8..] == records;
    ParseOfRecords(c, p, b, n, records);
    assert FirstKeys(p, n) == p;
  }

  lemma RoundTripWith(c: Codec, b: Bytes, p: AccountProfile)
    requires Faithful(c)
    ensures DecodeWith(c, b) == Ok(p) <==> EncodeWith(c, p) == Ok(b)
  {
    if p.additional != [] && EncodeWith(c, p) == Ok(b) { MultiRoundTrip(c, p); }
  }

  // ----- The decoder's own comparison with the encoder

  ghost predicate Distinct(p: AccountProfile, n: nat)
    requires n <= |p.additional| + 1
  {
    forall i, j | 0 <= i < j < n :: Credential(p, i) != Credential(p, j)
  }

  /** The records before an additional key are encoded as they were without it. */
  lemma {:induction false} EncodeEarlier(c: Codec, p: AccountProfile, extra: AdditionalKey, n: nat)
    requires n <= |p.additional| + 1
    ensures EncodeRecords(c, p.(additional := p.additional + [extra]), n) == EncodeRecords(c, p, n)
  {
    if n == 0 {
    } else {
      var p' := p.(additional := p.additional + [extra]);
      EncodeEarlier(c, p, extra, n - 1);
      assert forall i | 0 <= i < n :: ProfileForKey(p', i) == ProfileForKey(p, i);
      assert forall i | 0 <= i < n :: Credential(p', i) == Credential(p, i);
    }
  }

  /** What one round of the decoder's loop has read. */
  lemma RecordParts(c: Codec, b: Bytes, before: Parsed, index: nat, after: Parsed)
    returns (bytes: Bytes, record: AccountProfile)
    requires ParseRecord(c, b, before, index) == Ok(after)
    ensures before.position + 4 + |bytes| == after.position <= |b| && |bytes| <= MAX_RECORD
    ensures b[before.position..after.position] == U32(|bytes|) + bytes
    ensures c.decode(bytes) == Ok(record) && Merge(before.profile, record, index) == Ok(after.profile)
  {
    bytes := TakeAt(b, before.position + 4, NumberAt(b, before.position).value).value;
    record := c.decode(bytes).value;
    NumberRead(b, before.position);
    Split(b, before.position, before.position + 4, after.position);
  }

  lemma MergedRecord(profile: AccountProfile, record: AccountProfile, index: nat, merged: AccountProfile)
    requires Merge(profile, record, index) == Ok(merged) && record.additional == []
    requires index > 0 ==> |profile.additional| == index - 1
    ensures |merged.additional| == index && ProfileForKey(merged, index) == Ok(record)
    ensures index > 0 ==>
              merged == profile.(additional := profile.additional + [AdditionalKey(record.bound.key, record.password)])
  {
  }

  lemma RecordReencodes(c: Codec, b: Bytes, p: AccountProfile, index: nat, from: nat, to: nat, bytes: Bytes)
    requires index <= |p.additional| && 8 <= from <= to <= |b| && b[from..to] == U32(|bytes|) + bytes
    requires c.encode(ProfileForKey(p, index).value) == Ok(bytes)
    requires EncodeRecords(c, p, index) == if Distinct(p, index) then Ok(b[8..from]) else Err
    ensures EncodeRecords(c, p, index + 1) == if Distinct(p, index + 1) then Ok(b[8..to]) else Err
  {
    Split(b, 8, from, to);
    assert Distinct(p, index + 1) <==> Distinct(p, index) && NewCredential(p, index);
  }

  /** Encoding the `n` records that were read gives the bytes they were read from, unless a credential occurs twice. */
  ghost predicate Canonical(c: Codec, b: Bytes, n: nat, q: Parsed)
    requires n > 0
  {
    && 8 <= q.position <= |b| && |q.profile.additional| == n - 1
    && EncodeRecords(c, q.profile, n) == if Distinct(q.profile, n) then Ok(b[8..q.position]) else Err
  }

  lemma FirstCanonical(c: Codec, b: Bytes, before: Parsed, q: Parsed)
    requires Faithful(c) && before.position == 8 && ParseRecord(c, b, before, 0) == Ok(q)
    ensures Canonical(c, b, 1, q)
  {
    var bytes, record := RecordParts(c, b, before, 0, q);
    assert c.encode(record) == Ok(bytes) && record.additional == [];
    MergedRecord(before.profile, record, 0, q.profile);
    RecordReencodes(c, b, q.profile, 0, 8, q.position, bytes);
  }

  lemma NextCanonical(c: Codec, b: Bytes, n: nat, before: Parsed, q: Parsed)
    requires Faithful(c) && n > 0 && Canonical(c, b, n, before) && ParseRecord(c, b, before, n) == Ok(q)
    ensures Canonical(c, b, n + 1, q)
  {
    var bytes, record := RecordParts(c, b, before, n, q);
    assert c.encode(record) == Ok(bytes) && record.additional == [];
    MergedRecord(before.profile, record, n, q.profile);
    EarlierKept(c, b, before.profile, q.profile, AdditionalKey(record.bound.key, record.password), n, before.position);
    RecordReencodes(c, b, q.profile, n, before.position, q.position, bytes);
  }

  /** The records of a container are read canonically, before any comparison. */
  lemma {:induction false} RecordsAreCanonical(c: Codec, b: Bytes, n: nat, q: Parsed)
    requires Faithful(c) && n > 0 && ParseRecords(c, b, n) == Ok(q)
    ensures Canonical(c, b, n, q)
  {
    var before := ParseRecords(c, b, n - 1).value;
    if n == 1 {
      FirstCanonical(c, b, before, q);
    } else {
      RecordsAreCanonical(c, b, n - 1, before);
      NextCanonical(c, b, n - 1, before, q);
    }
  }

  lemma EarlierKept(c: Codec, b: Bytes, p: AccountProfile, p': AccountProfile, extra: AdditionalKey, n: nat, to: nat)
    requires n == |p.additional| + 1 && p' == p.(additional := p.additional + [extra]) && 8 <= to <= |b|
    requires EncodeRecords(c, p, n) == if Distinct(p, n) then Ok(b[8..to]) else Err
    ensures EncodeRecords(c, p', n) == if Distinct(p', n) then Ok(b[8..to]) else Err
  {
    EncodeEarlier(c, p, extra, n);
    assert forall i | 0 <= i < n :: ProfileForKey(p', i) == ProfileForKey(p, i);
    assert forall i | 0 <= i < n :: Credential(p', i) == Credential(p, i);
  }

  /**
   * Of the containers whose records were all read to the end, those with distinct credentials
   * are accepted: the comparison with the encoder refuses only a repeated credential.
   */
  lemma ContainerComparison(c: Codec, b: Bytes, n: nat, p: AccountProfile)
    requires Faithful(c) && IsMulti(b) && |b| <= MAX_PROFILE && NumberAt(b, 4) == Ok(n) && 2 <= n <= 8
    requires ParseRecords(c, b, n) == Ok(Parsed(|b|, p))
    ensures |p.additional| == n - 1
    ensures DecodeWith(c, b) == if Distinct(p, n) then Ok(p) else Err
  {
    RecordsAreCanonical(c, b, n, Parsed(|b|, p));
    if Distinct(p, n) {
      ContainerBytes(b, n);
      EncodedFrom(c, p, b[8..|b|], b);
      Decoded(c, b, n, p);
    } else {
      Refused(c, b, n, p);
    }
  }

  lemma EncodedFrom(c: Codec, p: AccountProfile, records: Bytes, b: Bytes)
    requires 1 <= |p.additional| < 8 && EncodeRecords(c, p, |p.additional| + 1) == Ok(records)
    requires b == MULTI_MAGIC + (U32(|p.additional| + 1) + records) && |b| <= MAX_PROFILE
    ensures EncodeWith(c, p) == Ok(b)
  {
  }

  lemma Refused(c: Codec, b: Bytes, n: nat, p: AccountProfile)
    requires IsMulti(b) && NumberAt(b, 4) == Ok(n) && ParseRecords(c, b, n) == Ok(Parsed(|b|, p))
    requires |p.additional| == n - 1 > 0 && EncodeRecords(c, p, n).Err?
    ensures DecodeWith(c, b).Err?
  {
  }

  lemma ContainerBytes(b: Bytes, n: nat)
    requires IsMulti(b) && NumberAt(b, 4) == Ok(n)
    ensures b == MULTI_MAGIC + (U32(n) + b[8..|b|])
  {
    NumberRead(b, 4);
    Split(b, 4, 8, |b|);
    assert b == b[..4] + b[4..|b|];
  }

  // ----- The two entry points

  function Encode(valid: WString -> bool, p: AccountProfile): Result<Bytes> {
    EncodeWith(Single(valid), p)
  }

  function Decode(valid: WString -> bool, b: Bytes): Result<AccountProfile> {
    DecodeWith(Single(valid), b)
  }

  /**
   * The decoder and the encoder are inverse to each other on every byte string and every
   * profile: whatever is written reads back as the same profile, and whatever is accepted
   * is exactly what would be written for the profile it yields.
   */
  lemma RoundTrip(valid: WString -> bool, b: Bytes, p: AccountProfile)
    ensures Decode(valid, b) == Ok(p) <==> Encode(valid, p) == Ok(b)
  {
    SingleIsFaithful(valid);
    RoundTripWith(Single(valid), b, p);
  }

  /**
   * A container within the limits whose records all parse, to its very end, is accepted if and
   * only if no credential occurs twice: the final comparison with the encoder refuses nothing else.
   */
  lemma DistinctContainersDecode(valid: WString -> bool, b: Bytes, n: nat, p: AccountProfile)
    requires IsMulti(b) && |b| <= MAX_PROFILE && NumberAt(b, 4) == Ok(n) && 2 <= n <= 8
    requires ParseRecords(Single(valid), b, n) == Ok(Parsed(|b|, p))
    ensures |p.additional| == n - 1 && (Decode(valid, b) == Ok(p) <==> Distinct(p, n))
  {
    SingleIsFaithful(valid);
    ContainerComparison(Single(valid), b, n, p);
  }

  // ----- What the encoder accepts

  /** A record that can be stored, in the numbers of the format. */
  predicate Storable(valid: WString -> bool, p: AccountProfile) {
    && valid(p.bound.sid) && ACCOUNT_PREFIX <= p.bound.account && p.bound.kind in {1, 2}
    && 1 <= |p.bound.sid| <= 512 && 0 !in p.bound.sid
    && 1 <= |p.bound.account| <= 512 && 0 !in p.bound.account
    && 16 <= |p.bound.key.credential| <= 2048
    && 1 <= |p.password.ciphertext| <= 8192
  }

  /** The bytes that the first `n` records of a container take, with their lengths. */
  function RecordsSize(p: AccountProfile, n: nat): nat
    requires n <= |p.additional| + 1
  {
    if n == 0 then 0 else
    var record := ProfileForKey(p, n - 1).value;
    RecordsSize(p, n - 1) + 152 + 2 * |p.bound.sid| + 2 * |p.bound.account| +
    |record.bound.key.credential| + |record.password.ciphertext|
  }

  lemma SingleAccepts(valid: WString -> bool, p: AccountProfile)
    ensures EncodeSingle(valid, p).Ok? <==> Storable(valid, p)
    ensures EncodeSingle(valid, p).Ok? ==>
              |EncodeSingle(valid, p).value| == 148 + 2 * |p.bound.sid| + 2 * |p.bound.account| +
                                                |p.bound.key.credential| + |p.password.ciphertext|
  {
  }

  lemma RecordAccepts(valid: WString -> bool, p: AccountProfile, index: nat)
    requires index <= |p.additional|
    ensures var record, frame := ProfileForKey(p, index).value, EncodeRecord(Single(valid), p, index);
            && (frame.Ok? <==> NewCredential(p, index) && Storable(valid, record))
            && (frame.Ok? ==> |frame.value| == RecordsSize(p, index + 1) - RecordsSize(p, index))
  {
    SingleAccepts(valid, ProfileForKey(p, index).value);
  }

  /** The records are encoded exactly if each of them is, and take the room of all of them. */
  lemma {:induction false} RecordsOneByOne(c: Codec, p: AccountProfile, n: nat)
    requires n <= |p.additional| + 1
    requires forall i | 0 <= i < n :: EncodeRecord(c, p, i).Ok? ==>
               |EncodeRecord(c, p, i).value| == RecordsSize(p, i + 1) - RecordsSize(p, i)
    ensures var records := EncodeRecords(c, p, n);
            && (records.Ok? <==> forall i | 0 <= i < n :: EncodeRecord(c, p, i).Ok?)
            && (records.Ok? ==> |records.value| == RecordsSize(p, n))
  {
    if n == 0 {
    } else {
      RecordsOneByOne(c, p, n - 1);
    }
  }

  lemma AllNew(p: AccountProfile, n: nat)
    requires n <= |p.additional| + 1
    ensures Distinct(p, n) <==> forall i | 0 <= i < n :: NewCredential(p, i)
  {
    if forall i | 0 <= i < n :: NewCredential(p, i) {
      forall i, j | 0 <= i < j < n ensures Credential(p, i) != Credential(p, j) {
        assert NewCredential(p, j);
      }
    }
  }

  lemma RecordsAccept(valid: WString -> bool, p: AccountProfile, n: nat)
    requires n <= |p.additional| + 1
    ensures var records := EncodeRecords(Single(valid), p, n);
            && (records.Ok? <==> Distinct(p, n) && forall i | 0 <= i < n :: Storable(valid, ProfileForKey(p, i).value))
            && (records.Ok? ==> |records.value| == RecordsSize(p, n))
  {
    var c := Single(valid);
    forall i | 0 <= i < n
      ensures EncodeRecord(c, p, i).Ok? <==> NewCredential(p, i) && Storable(valid, ProfileForKey(p, i).value)
      ensures EncodeRecord(c, p, i).Ok? ==>
                |EncodeRecord(c, p, i).value| == RecordsSize(p, i + 1) - RecordsSize(p, i)
    {
      RecordAccepts(valid, p, i);
    }
    RecordsOneByOne(c, p, n);
    AllNew(p, n);
  }

  /**
   * A profile can be encoded if and only if every record can be stored and, for several keys,
   * there are at most eight, their credentials differ, and the whole takes at most 60000 bytes.
   */
  lemma EncodeAccepts(valid: WString -> bool, p: AccountProfile)
    ensures var n := |p.additional| + 1;
            Encode(valid, p).Ok? <==>
              && (forall i | 0 <= i < n :: Storable(valid, ProfileForKey(p, i).value))
              && (n > 1 ==> n <= 8 && Distinct(p, n) && 8 + RecordsSize(p, n) <= 60000)
  {
    if p.additional == [] {
      assert ProfileForKey(p, 0).value == p;
      SingleAccepts(valid, p);
    } else {
      RecordsAccept(valid, p, |p.additional| + 1);
    }
  }

  /** The first `i` records are encoded as a prefix of all of them. */
  lemma {:induction false} EarlierRecords(c: Codec, p: AccountProfile, i: nat, n: nat, records: Bytes)
    requires i <= n <= |p.additional| + 1 && EncodeRecords(c, p, n) == Ok(records)
    ensures EncodeRecords(c, p, i).Ok? && EncodeRecords(c, p, i).value <= records
  {
    if i == n {
    } else {
      var written, record := LastRecord(c, p, n - 1, records);
      EarlierRecords(c, p, i, n - 1, written);
    }
  }

  lemma SliceOfBody(b: Bytes, records: Bytes, upto: Bytes, written: Bytes, frame: Bytes)
    requires |b| >= 8 && b[8..] == records && upto <= records && upto == written + frame
    ensures 8 + |upto| <= |b| && b[8 + |written|..8 + |upto|] == frame
  {
    assert b[8 + |written|..8 + |upto|] == records[|written|..|upto|];
  }

  lemma ContainerParts(c: Codec, p: AccountProfile, b: Bytes, i: nat) returns (written: Bytes, record: Bytes)
    requires p.additional != [] && EncodeWith(c, p) == Ok(b) && i <= |p.additional|
    ensures b[..4] == [83, 87, 77, 2] && b[4..8] == U32(|p.additional| + 1)
    ensures EncodeRecords(c, p, i) == Ok(written) && c.encode(ProfileForKey(p, i).value) == Ok(record)
    ensures var from := 8 + |written|;
            from + 4 + |record| <= |b| && b[from..from + 4 + |record|] == U32(|record|) + record
  {
    var records := Encoded(c, p, b);
    assert b[8..] == records;
    EarlierRecords(c, p, i + 1, |p.additional| + 1, records);
    var upto := EncodeRecords(c, p, i + 1).value;
    written, record := LastRecord(c, p, i, upto);
    SliceOfBody(b, records, upto, written, U32(|record|) + record);
  }

  /**
   * A container by position: magic, the number of keys, then the records; each follows the sizes
   * of those before it, after its own length.
   */
  lemma ContainerLayout(valid: WString -> bool, p: AccountProfile, b: Bytes, i: nat) returns (record: Bytes)
    requires p.additional != [] && Encode(valid, p) == Ok(b) && i <= |p.additional|
    ensures b[..4] == [83, 87, 77, 2] && b[4..8] == U32(|p.additional| + 1)
    ensures EncodeSingle(valid, ProfileForKey(p, i).value) == Ok(record)
    ensures var from, to := 8 + RecordsSize(p, i), 8 + RecordsSize(p, i + 1);
            from + 4 + |record| == to <= |b| && b[from..to] == U32(|record|) + record
  {
    var c, written := Single(valid), [];
    written, record := ContainerParts(c, p, b, i);
    RecordRoom(valid, p, i, written, record);
  }

  lemma RecordRoom(valid: WString -> bool, p: AccountProfile, i: nat, written: Bytes, record: Bytes)
    requires i <= |p.additional| && EncodeRecords(Single(valid), p, i) == Ok(written)
    requires EncodeSingle(valid, ProfileForKey(p, i).value) == Ok(record)
    ensures |written| == RecordsSize(p, i) && 4 + |record| == RecordsSize(p, i + 1) - RecordsSize(p, i)
  {
    RecordsAccept(valid, p, i);
    SingleAccepts(valid, ProfileForKey(p, i).value);
  }

  // ----- Prefix-freeness

  lemma NumberStable(b: Bytes, b': Bytes, position: nat)
    requires b <= b' && NumberAt(b, position).Ok?
    ensures NumberAt(b', position) == NumberAt(b, position)
  {
    assert b'[position..position + 4] == b[position..position + 4];
  }

  lemma TakeStable(b: Bytes, b': Bytes, position: nat, n: nat)
    requires b <= b' && TakeAt(b, position, n).Ok?
    ensures TakeAt(b', position, n) == TakeAt(b, position, n)
  {
    assert b'[position..position + n] == b[position..position + n];
  }

  /** A single record says how long it is: the binding takes `n` bytes and the ciphertext `m`. */
  ghost predicate Framed(b: Bytes, n: nat, m: nat) {
    NumberAt(b, 0) == Ok(n) && NumberAt(b, 32 + n) == Ok(m) && |b| == 36 + n + m
  }

  lemma SingleFramed(valid: WString -> bool, b: Bytes) returns (n: nat, m: nat)
    requires DecodeSingle(valid, b).Ok?
    ensures Framed(b, n, m)
  {
    var binding, p := ReadsOfDecode(valid, b);
    PasswordReads(b, 4 + |binding|, p.password);
    n, m := |binding|, |p.password.ciphertext|;
  }

  lemma RecordStable(c: Codec, b: Bytes, b': Bytes, before: Parsed, index: nat)
    requires b <= b' && ParseRecord(c, b, before, index).Ok?
    ensures ParseRecord(c, b', before, index) == ParseRecord(c, b, before, index)
  {
    NumberStable(b, b', before.position);
    TakeStable(b, b', before.position + 4, NumberAt(b, before.position).value);
  }

  lemma {:induction false} RecordsStable(c: Codec, b: Bytes, b': Bytes, n: nat)
    requires b <= b' && ParseRecords(c, b, n).Ok?
    ensures ParseRecords(c, b', n) == ParseRecords(c, b, n)
  {
    if n == 0 {
    } else {
      RecordsStable(c, b, b', n - 1);
      RecordStable(c, b, b', ParseRecords(c, b, n - 1).value, n - 1);
    }
  }

  /** No accepted byte string is a proper prefix of another, whichever of the two shapes each has. */
  lemma PrefixFree(valid: WString -> bool, b: Bytes, b': Bytes)
    requires Decode(valid, b).Ok? && Decode(valid, b').Ok? && b <= b'
    ensures b == b'
  {
    if IsMulti(b) {
      NumberStable(b, b', 4);
      RecordsStable(Single(valid), b, b', NumberAt(b, 4).value);
    } else {
      var n, m := SingleFramed(valid, b);
      assert !IsMulti(b') by { assert b'[..4] == b[..4]; }
      var n', m' := SingleFramed(valid, b');
      FramedPrefix(b, b', n, m, n', m');
    }
  }

  lemma FramedPrefix(b: Bytes, b': Bytes, n: nat, m: nat, n': nat, m': nat)
    requires Framed(b, n, m) && Framed(b', n', m') && b <= b'
    ensures b == b'
  {
    NumberStable(b, b', 0);
    NumberStable(b, b', 32 + n);
  }

  // ----- What an accepted multi-key profile guarantees

  lemma {:induction false} RecordsDistinct(c: Codec, p: AccountProfile, n: nat)
    requires n <= |p.additional| + 1 && EncodeRecords(c, p, n).Ok?
    ensures forall i, j | 0 <= i < j < n :: Credential(p, i) != Credential(p, j)
    ensures forall i | 0 <= i < n :: c.encode(ProfileForKey(p, i).value).Ok?
  {
    if n == 0 {
    } else {
      RecordsDistinct(c, p, n - 1);
    }
  }

  /**
   * An accepted multi-key profile has two to eight keys with pairwise distinct credentials,
   * each a valid record under the one identity and kind of the profile.
   */
  lemma KeysDistinct(valid: WString -> bool, b: Bytes)
    requires Decode(valid, b).Ok? && IsMulti(b)
    ensures var p := Decode(valid, b).value;
            && 2 <= |p.additional| + 1 <= 8
            && (forall i, j | 0 <= i < j <= |p.additional| :: Credential(p, i) != Credential(p, j))
            && (forall i | 0 <= i <= |p.additional| :: Bindable(valid, ProfileForKey(p, i).value.bound))
  {
    var p := Decode(valid, b).value;
    RoundTrip(valid, b, p);
    if p.additional == [] { SingleIsNotMulti(valid, p); assert false; }
    RecordsDistinct(Single(valid), p, |p.additional| + 1);
    forall i | 0 <= i <= |p.additional| ensures Bindable(valid, ProfileForKey(p, i).value.bound) {
      assert Single(valid).encode(ProfileForKey(p, i).value).Ok?;
    }
  }
}
