/**
 * The recovery credential of src/recovery_usb.cpp: what a SOFTWARE hive records about its
 * paired USB drive and which credential files it accepts. `sha` stands for SHA-256.
 */
module RecoveryUsb {
  import opened Basics
  import opened Profile

  /** A hive: registry key paths and the binary values under each key. */
  type Values = map<string, Bytes>
  type Hive = map<string, Values>

  const PAIRING_PATH: string := "SovereignWindowsAuth\\RecoveryUsb"
  const PAIRING_VALUE: string := "Pairing"

  /** "SWAUSB", version 1, and a zero byte. */
  const USB_MAGIC: Bytes := [83, 87, 65, 85, 83, 66, 1, 0]
  const KEY_SIZE: nat := 56
  const RECORD_SIZE: nat := 40

  type Sha = Bytes -> Bytes32

  predicate IsPaired(h: Hive) {
    PAIRING_PATH in h
  }

  /** `expected`: the digest in a complete pairing record. */
  function Expected(h: Hive): Result<Bytes32> {
    if PAIRING_PATH in h && PAIRING_VALUE in h[PAIRING_PATH] then
      var record := h[PAIRING_PATH][PAIRING_VALUE];
      if |record| == RECORD_SIZE && USB_MAGIC <= record then Ok(record[8..]) else Err
    else Err
  }

  function KeyDigest(sha: Sha, key: Bytes): Result<Bytes32> {
    if |key| == KEY_SIZE && USB_MAGIC <= key then Ok(sha(key)) else Err
  }

  /** A credential that a paired hive accepts: 56 bytes, the right format, the recorded digest. */
  predicate Matches(sha: Sha, h: Hive, credential: Bytes) {
    Expected(h).Ok? && KeyDigest(sha, credential) == Expected(h)
  }

  /** `authorize`; the credential is what could be read from the named file. */
  predicate Authorizes(sha: Sha, h: Hive, keyFile: Option<string>, credential: Option<Bytes>) {
    Expected(h).Ok? && keyFile.Some? && keyFile.value != "" && credential.Some? && Matches(sha, h, credential.value)
  }

  /** `authorizeRecovery`: a paired hive demands its credential; an unpaired one accepts only a plain removal. */
  predicate Permits(sha: Sha, h: Hive, keyFile: Option<string>, credential: Option<Bytes>, inspecting: bool) {
    if IsPaired(h) then Authorizes(sha, h, keyFile, credential) else keyFile.None? && !inspecting
  }

  function Record(digest: Bytes32): (r: Bytes)
    ensures |r| == RECORD_SIZE
  {
    USB_MAGIC + digest
  }

  lemma RecordExpects(h: Hive, digest: Bytes32)
    ensures Expected(h[PAIRING_PATH := map[PAIRING_VALUE := Record(digest)]]) == Ok(digest)
  {
    assert Record(digest)[8..] == digest && USB_MAGIC <= Record(digest);
  }

  /** Writing the record of a credential makes exactly the credentials with its digest match. */
  lemma RecordMatches(sha: Sha, h: Hive, credential: Bytes, other: Bytes)
    requires KeyDigest(sha, credential).Ok?
    ensures var h' := h[PAIRING_PATH := map[PAIRING_VALUE := Record(sha(credential))]];
            Matches(sha, h', other) <==> KeyDigest(sha, other).Ok? && sha(other) == sha(credential)
  {
    RecordExpects(h, sha(credential));
  }

  /** Which credential a hive accepts, in the bytes of the two files. */
  lemma MatchesExactly(sha: Sha, h: Hive, credential: Bytes)
    ensures Matches(sha, h, credential) <==>
              && |credential| == 56 && credential[..8] == [83, 87, 65, 85, 83, 66, 1, 0]
              && "SovereignWindowsAuth\\RecoveryUsb" in h && "Pairing" in h["SovereignWindowsAuth\\RecoveryUsb"]
              && h["SovereignWindowsAuth\\RecoveryUsb"]["Pairing"] == [83, 87, 65, 85, 83, 66, 1, 0] + sha(credential)
  {
    if |credential| == 56 { assert USB_MAGIC <= credential <==> credential[..8] == USB_MAGIC; }
    if IsPaired(h) && PAIRING_VALUE in h[PAIRING_PATH] {
      var record := h[PAIRING_PATH][PAIRING_VALUE];
      if |record| == RECORD_SIZE && USB_MAGIC <= record { assert record == USB_MAGIC + record[8..]; }
      if record == USB_MAGIC + sha(credential) { assert record[8..] == sha(credential) && USB_MAGIC <= record; }
    }
  }

  /** A pairing key whose record was never written permits no recovery at all. */
  lemma HalfPairedPermitsNothing(sha: Sha, h: Hive, keyFile: Option<string>, credential: Option<Bytes>,
                                 inspecting: bool)
    requires IsPaired(h) && PAIRING_VALUE !in h[PAIRING_PATH]
    ensures !Permits(sha, h, keyFile, credential, inspecting)
  {
  }
}
