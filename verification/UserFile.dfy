/** The user file, USER/udata/udata.cpp, with the password cipher of SYSTEM/crypto/crypto.cpp. The keystream
    is an arbitrary function of the position: it depends on the key, not on the password. */
module UserFile {
  import opened Bytes
  import opened Concat
  import opened Users
  import opened Wrappers

  // ---- The cipher ----

  type Keystream = nat -> nat

  function Encrypt(s: string, key: Keystream): (r: string)
    ensures |r| == |s| && AreBytes(r)
  {
    seq(|s|, i requires 0 <= i < |s| => ((s[i] as int + key(i) % 256) % 256) as char)
  }

  function Decrypt(s: string, key: Keystream): (r: string)
    ensures |r| == |s| && AreBytes(r)
  {
    seq(|s|, i requires 0 <= i < |s| => ((s[i] as int - key(i) % 256 + 256) % 256) as char)
  }

  lemma DecryptEncrypt(s: string, key: Keystream)
    requires AreBytes(s)
    ensures Decrypt(Encrypt(s, key), key) == s
  {
    forall i | 0 <= i < |s| ensures Decrypt(Encrypt(s, key), key)[i] == s[i] {
      ByteSum(s[i] as int, key(i) % 256);
    }
  }

  lemma EncryptDecrypt(s: string, key: Keystream)
    requires AreBytes(s)
    ensures Encrypt(Decrypt(s, key), key) == s
  {
    forall i | 0 <= i < |s| ensures Encrypt(Decrypt(s, key), key)[i] == s[i] {
      ByteSum(s[i] as int, key(i) % 256);
    }
  }

  lemma ByteSum(p: nat, k: nat)
    requires p < 256 && k < 256
    ensures ((p + k) % 256 - k + 256) % 256 == p && ((p - k + 256) % 256 + k) % 256 == p
  {
    Wraps(p + k);
    Wraps(p - k + 256);
    Wraps((p + k) % 256 - k + 256);
    Wraps((p - k + 256) % 256 + k);
  }

  lemma Wraps(n: nat)
    requires n < 512
    ensures n % 256 == if n < 256 then n else n - 256
  {
  }

  method EncryptText(plaintext: string, key: Keystream) returns (ciphertext: string)
    ensures ciphertext == Encrypt(plaintext, key)
  {
    ciphertext := "";
    for i := 0 to |plaintext|
      invariant ciphertext == Encrypt(plaintext, key)[..i]
    {
      ciphertext := ciphertext + [((plaintext[i] as int + key(i) % 256) % 256) as char];
    }
  }

  method DecryptText(ciphertext: string, key: Keystream) returns (plaintext: string)
    ensures plaintext == Decrypt(ciphertext, key)
  {
    plaintext := "";
    for i := 0 to |ciphertext|
      invariant plaintext == Decrypt(ciphertext, key)[..i]
    {
      plaintext := plaintext + [((ciphertext[i] as int - key(i) % 256 + 256) % 256) as char];
    }
  }

  // ---- The format ----

  const MAX_COUNT := 10000

  const MAX_STRING := 1024 * 1024

  const MAX_FILE := 64 * 1024 * 1024

  const VERSION := 21

  predicate IsInt32(n: int) { -0x8000_0000 <= n < 0x8000_0000 }

  function FromInt32(n: int): string { Little(n % HALF_WORD, 4) }

  function ToInt32(s: string): int {
    var n := FromLittle(s);
    if n < 0x8000_0000 then n else n - HALF_WORD
  }

  lemma Int32RoundTrip(n: int)
    requires IsInt32(n)
    ensures ToInt32(FromInt32(n)) == n
  {
    HalfWordRoundTrip(n % HALF_WORD);
  }

  function Stored(s: string): string { Little(|s|, 8) + s }

  /** What `readStoredString` takes from a stream, and the rest of it. */
  function TakeString(s: string): Option<(string, string)> {
    if |s| < 8 then None
    else
      var size := FromLittle(s[..8]);
      if size > MAX_STRING || 8 + size > |s| then None else Some((s[8..8 + size], s[8 + size..]))
  }

  lemma TakeStored(s: string, rest: string)
    requires |s| <= MAX_STRING
    ensures TakeString(Stored(s) + rest) == Some((s, rest))
  {
    WordRoundTrip(|s|);
    var all := Stored(s) + rest;
    assert all[..8] == Little(|s|, 8);
    assert all[8..8 + |s|] == s;
    assert all[8 + |s|..] == rest;
  }

  /** What fits into a stored record. */
  predicate Storable(u: User) {
    |u.kind| <= MAX_STRING && |u.name| <= MAX_STRING && |u.password| <= MAX_STRING && |u.hint| <= MAX_STRING
  }

  /** The program's strings are bytes and its counts are 32-bit integers. */
  predicate Representable(u: User) { AreBytes(u.password) && IsInt32(u.failed) }

  function EncodeUser(u: User, key: Keystream): string {
    Stored(u.kind) + (Stored(u.name) + (Stored(Encrypt(u.password, key)) + (Stored(u.hint) + FromInt32(u.failed))))
  }

  function TakeUser(s: string, key: Keystream): Option<(User, string)> {
    var kind := TakeString(s);
    if kind.None? then None else
    var name := TakeString(kind.value.1);
    if name.None? then None else
    var password := TakeString(name.value.1);
    if password.None? then None else
    var hint := TakeString(password.value.1);
    if hint.None? || |hint.value.1| < 4 then None else
    var user := User(kind.value.0, name.value.0, Decrypt(password.value.0, key),
      hint.value.0, ToInt32(hint.value.1[..4]));
    Some((user, hint.value.1[4..]))
  }

  lemma TakeEncodedUser(u: User, key: Keystream, rest: string)
    requires Representable(u) && Storable(u)
    ensures TakeUser(EncodeUser(u, key) + rest, key) == Some((u, rest))
  {
    var a, b, c, d, e :=
      Stored(u.kind), Stored(u.name), Stored(Encrypt(u.password, key)), Stored(u.hint), FromInt32(u.failed);
    var s4 := e + rest;
    var s3 := d + s4;
    var s2 := c + s3;
    var s1 := b + s2;
    Regroup(a, b, c, d, e, rest);
    TakeStored(u.kind, s1);
    TakeStored(u.name, s2);
    TakeStored(Encrypt(u.password, key), s3);
    TakeStored(u.hint, s4);
    TakeParts(a + s1, s1, s2, s3, s4, u.(password := Encrypt(u.password, key)), key);
    DecryptEncrypt(u.password, key);
    TakeCount(u.failed, rest);
  }

  /** A user is the four strings, one after the other, and a count; `u` has the password as it is stored. */
  lemma TakeParts(s: string, s1: string, s2: string, s3: string, s4: string, u: User, key: Keystream)
    requires TakeString(s) == Some((u.kind, s1)) && TakeString(s1) == Some((u.name, s2))
    requires TakeString(s2) == Some((u.password, s3)) && TakeString(s3) == Some((u.hint, s4)) && |s4| >= 4
    ensures TakeUser(s, key) ==
      Some((User(u.kind, u.name, Decrypt(u.password, key), u.hint, ToInt32(s4[..4])), s4[4..]))
  {
  }

  lemma TakeCount(n: int, rest: string)
    requires IsInt32(n)
    ensures var s := FromInt32(n) + rest; |s| >= 4 && ToInt32(s[..4]) == n && s[4..] == rest
  {
    Int32RoundTrip(n);
    assert (FromInt32(n) + rest)[..4] == FromInt32(n);
  }

  lemma Regroup(a: string, b: string, c: string, d: string, e: string, rest: string)
    ensures a + (b + (c + (d + e))) + rest == a + (b + (c + (d + (e + rest))))
  {
    Assoc(d, e, rest);
    Assoc(c, d + e, rest);
    Assoc(b, c + (d + e), rest);
    Assoc(a, b + (c + (d + e)), rest);
  }

  predicate AllRepresentable(users: seq<User>) { forall i :: 0 <= i < |users| ==> Representable(users[i]) }

  predicate AllStorable(users: seq<User>) { forall i :: 0 <= i < |users| ==> Storable(users[i]) }

  function EncodeUsers(users: seq<User>, key: Keystream): string {
    if users == [] then "" else EncodeUser(users[0], key) + EncodeUsers(users[1..], key)
  }

  function TakeUsers(s: string, count: nat, key: Keystream): Option<seq<User>>
    decreases count
  {
    if count == 0 then Some([]) else
    var first := TakeUser(s, key);
    if first.None? then None else
    Then([first.value.0], TakeUsers(first.value.1, count - 1, key))
  }

  lemma {:induction false} TakeEncodedUsers(users: seq<User>, key: Keystream)
    requires AllRepresentable(users) && AllStorable(users)
    ensures TakeUsers(EncodeUsers(users, key), |users|, key) == Some(users)
  {
    if users != [] {
      TakeEncodedUser(users[0], key, EncodeUsers(users[1..], key));
      TakeEncodedUsers(users[1..], key);
      Uncons(users);
    }
  }

  datatype Data = Data(users: seq<User>, strict: bool)

  function Encode(d: Data, key: Keystream): string { Prefix(d) + EncodeUsers(d.users, key) }

  /** Version, strict flag and count. */
  function Prefix(d: Data): string {
    FromInt32(VERSION) + [if d.strict then 1 as char else 0 as char] + Little(|d.users|, 8)
  }

  predicate HasAdmin(users: seq<User>) { exists i :: 0 <= i < |users| && users[i].kind == "admin" }

  /** `LoadUsersFromFile` on an existing file; `None` when it keeps the defaults. */
  function Load(file: string, key: Keystream): Option<Data> {
    if |file| > MAX_FILE || |file| < 13 || ToInt32(file[..4]) != VERSION || file[4] as int > 1 then None else
    var count := FromLittle(file[5..13]);
    if count > MAX_COUNT then None else
    var users := TakeUsers(file[13..], count, key);
    if users.None? || !HasAdmin(users.value) then None else Some(Data(users.value, file[4] as int == 1))
  }

  /** What a saved file must satisfy to be read again; saving checks none of it. */
  predicate Loadable(d: Data, key: Keystream) {
    |d.users| <= MAX_COUNT && |Encode(d, key)| <= MAX_FILE && HasAdmin(d.users)
  }

  /** Loading a saved file gives back the same users in the same order and the same flag exactly when the
      file is within the reader's limits and has an administrator; otherwise it gives nothing. */
  lemma LoadSaved(d: Data, key: Keystream)
    requires AllRepresentable(d.users) && AllStorable(d.users) && |d.users| < WORD
    ensures Load(Encode(d, key), key) == if Loadable(d, key) then Some(d) else None
  {
    var file := Encode(d, key);
    PrefixParts(d, EncodeUsers(d.users, key));
    Int32RoundTrip(VERSION);
    WordRoundTrip(|d.users|);
    TakeEncodedUsers(d.users, key);
  }

  lemma PrefixParts(d: Data, rest: string)
    ensures var file := Prefix(d) + rest;
      |Prefix(d)| == 13 && file[..4] == FromInt32(VERSION) && file[4] == (if d.strict then 1 as char else 0 as char)
      && file[5..13] == Little(|d.users|, 8) && file[13..] == rest
  {
  }
}
