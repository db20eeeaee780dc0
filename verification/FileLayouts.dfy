/** The bytes of the files: where what stands in the user file of USER/udata/udata.cpp and in the TUX files of
    BACKEND/adapters/filesystem_tux_store.cpp, and what the ciphers of SYSTEM/crypto/crypto.cpp and of the audit log do
    to a byte. */
module FileLayouts {
  import opened Bytes
  import opened Concat
  import TuxFormat
  import AuditLog
  import UserFile
  import Users

  // ---- Pieces ----

  /** One piece behind the other. */
  function Flat(pieces: seq<string>): string { if pieces == [] then "" else pieces[0] + Flat(pieces[1..]) }

  lemma FlatCons(piece: string, pieces: seq<string>)
    ensures Flat([piece] + pieces) == piece + Flat(pieces)
  {
    assert ([piece] + pieces)[1..] == pieces;
  }

  /** A text behind its length, and more behind it. */
  lemma FlatPair(size: string, text: string, pieces: seq<string>)
    ensures Flat([size, text] + pieces) == size + text + Flat(pieces)
  {
    assert [size, text] + pieces == [size] + ([text] + pieces);
    FlatCons(size, [text] + pieces);
    FlatCons(text, pieces);
    Assoc(size, text, Flat(pieces));
  }

  /** Byte `k` of a number has the worth 256 to the power of `k`. */
  lemma {:induction false} LittleBytes(n: nat, width: nat, k: nat)
    requires k < width
    ensures Little(n, width)[k] as int == n / Limit(k) % 256
    decreases width
  {
    if k > 0 {
      LittleBytes(n / 256, width - 1, k - 1);
      DividedTwice(n, Limit(k - 1));
    } else {
      assert Limit(0) == 1;
    }
  }

  lemma DividedTwice(n: nat, d: nat)
    requires d > 0
    ensures n / 256 / d == n / (256 * d)
  {
    var q, r := n / 256, n % 256;
    var p, t := q / d, q % d;
    assert n == 256 * (d * p + t) + r == 256 * d * p + (256 * t + r);
    assert 0 <= 256 * t + r < 256 * d;
    Quotient(n, 256 * d, p, 256 * t + r);
  }

  lemma Quotient(n: nat, d: nat, p: nat, r: nat)
    requires d > 0 && n == d * p + r && r < d
    ensures n / d == p
  {
    var q, s := n / d, n % d;
    assert n == d * q + s;
    Grows(d, q, p);
    Grows(d, p, q);
  }

  lemma Grows(d: nat, a: nat, b: nat)
    ensures a < b ==> d * b >= d * a + d
  {
    if a < b {
      var more := b - a - 1;
      assert b == a + 1 + more;
      assert d * (a + 1 + more) == d * a + d + d * more;
    }
  }

  // ---- The user file ----

  /** Version 21 in four bytes, the strict flag in one, the number of users in eight, and the users. */
  lemma UserFileLayout(d: UserFile.Data, key: UserFile.Keystream)
    ensures UserFile.Encode(d, key) == Flat(
      [Little(21, 4), if d.strict then [1 as char] else [0 as char], Little(|d.users|, 8),
        UserFile.EncodeUsers(d.users, key)])
  {
    HeadPieces(Little(21, 4), if d.strict then [1 as char] else [0 as char], Little(|d.users|, 8),
      UserFile.EncodeUsers(d.users, key));
  }

  lemma HeadPieces(a: string, b: string, c: string, d: string)
    ensures a + b + c + d == Flat([a, b, c, d])
  {
    FlatPair(c, d, []);
    assert [c, d] + [] == [c, d] && c + d + "" == c + d;
    FlatPair(a, b, [c, d]);
    assert [a, b] + [c, d] == [a, b, c, d];
    Assoc(a + b, c, d);
  }

  /** Type, name, ciphered password and hint, each behind its length in eight bytes, and the count in four. */
  lemma UserLayout(u: Users.User, key: UserFile.Keystream)
    ensures var password := UserFile.Encrypt(u.password, key);
      UserFile.EncodeUser(u, key) == Flat(
        [Little(|u.kind|, 8), u.kind, Little(|u.name|, 8), u.name, Little(|password|, 8), password,
          Little(|u.hint|, 8), u.hint, Little(u.failed % 0x1_0000_0000, 4)])
  {
    var password := UserFile.Encrypt(u.password, key);
    NinePieces(Little(|u.kind|, 8), u.kind, Little(|u.name|, 8), u.name, Little(|password|, 8), password,
      Little(|u.hint|, 8), u.hint, Little(u.failed % 0x1_0000_0000, 4));
  }

  lemma NinePieces(a: string, b: string, c: string, d: string, e: string, f: string, g: string, h: string, i: string)
    ensures a + b + (c + d + (e + f + (g + h + i))) == Flat([a, b, c, d, e, f, g, h, i])
  {
    FlatCons(i, []);
    assert [i] + [] == [i] && i + "" == i;
    FlatPair(g, h, [i]);
    FlatPair(e, f, [g, h] + [i]);
    FlatPair(c, d, [e, f] + ([g, h] + [i]));
    FlatPair(a, b, [c, d] + ([e, f] + ([g, h] + [i])));
    assert [a, b] + ([c, d] + ([e, f] + ([g, h] + [i]))) == [a, b, c, d, e, f, g, h, i];
  }

  /** A ciphered byte is the sum of the byte and that of the keystream, modulo 256. */
  lemma PasswordBytes(s: string, key: UserFile.Keystream, i: nat)
    requires i < |s|
    ensures |UserFile.Encrypt(s, key)| == |s|
    ensures var c := UserFile.Encrypt(s, key)[i] as int; c < 256 && (c - s[i] as int - key(i)) % 256 == 0
  {
  }

  // ---- TUX files ----

  /** Version 1 in four bytes, the ciphered names of creator and last editor, the two times in eight bytes each, and the
      ciphered content; names and content are behind their lengths in eight bytes. */
  lemma TuxLayout(c: TuxFormat.Content)
    ensures var creator := TuxFormat.EncryptDecrypt(c.metadata.creator);
      var editor := TuxFormat.EncryptDecrypt(c.metadata.lastEditor);
      var content := TuxFormat.EncryptDecrypt(c.content);
      TuxFormat.Encode(c) == Flat(
        [Little(1, 4), Little(|creator|, 8), creator, Little(|editor|, 8), editor,
          Little(c.metadata.createTime % WORD, 8), Little(c.metadata.modifyTime % WORD, 8),
          Little(|content|, 8), content])
  {
    var creator := TuxFormat.EncryptDecrypt(c.metadata.creator);
    var editor := TuxFormat.EncryptDecrypt(c.metadata.lastEditor);
    var content := TuxFormat.EncryptDecrypt(c.content);
    TuxPieces(Little(1, 4), Little(|creator|, 8), creator, Little(|editor|, 8), editor,
      Little(c.metadata.createTime % WORD, 8), Little(c.metadata.modifyTime % WORD, 8), Little(|content|, 8), content);
  }

  lemma TuxPieces(a: string, b: string, c: string, d: string, e: string, f: string, g: string, h: string, i: string)
    ensures a + (b + c + (d + e + (f + (g + (h + i))))) == Flat([a, b, c, d, e, f, g, h, i])
  {
    FlatPair(h, i, []);
    assert [h, i] + [] == [h, i] && h + i + "" == h + i;
    FlatCons(g, [h, i]);
    FlatCons(f, [g] + [h, i]);
    FlatPair(d, e, [f] + ([g] + [h, i]));
    FlatPair(b, c, [d, e] + ([f] + ([g] + [h, i])));
    FlatCons(a, [b, c] + ([d, e] + ([f] + ([g] + [h, i]))));
    assert [a] + ([b, c] + ([d, e] + ([f] + ([g] + [h, i])))) == [a, b, c, d, e, f, g, h, i];
  }

  // ---- Ciphers ----

  /** The TUX cipher turns over every other bit of a byte, the lowest included. */
  lemma TuxBits(s: string, i: nat, k: nat)
    requires i < |s| && k < 8
    ensures |TuxFormat.EncryptDecrypt(s)| == |s|
    ensures Halved(TuxFormat.EncryptDecrypt(s)[i] as int, k) % 2 == (Halved(s[i] as int, k) + (k + 1)) % 2
  {
    ByteBits(s[i], 'U', k);
    BitsOfU(k);
    SameSum(Halved(s[i] as int, k), Halved('U' as int, k), k + 1);
  }

  lemma ByteBits(c: char, d: char, k: nat)
    requires k < 8
    ensures Halved(XorChar(c, d) as int, k) % 2 == (Halved(c as int, k) + Halved(d as int, k)) % 2
  {
    XorBit(c as int, d as int, 8, k);
  }

  lemma SameSum(a: nat, b: nat, c: nat)
    requires b % 2 == c % 2
    ensures (a + b) % 2 == (a + c) % 2
  {
  }

  lemma BitsOfU(k: nat)
    requires k < 8
    ensures Halved('U' as int, k) % 2 == (k + 1) % 2
  {
    if k > 0 { HalvedU(k, 85, 42); }
    if k > 1 { HalvedU(k - 1, 42, 21); }
    if k > 2 { HalvedU(k - 2, 21, 10); }
    if k > 3 { HalvedU(k - 3, 10, 5); }
    if k > 4 { HalvedU(k - 4, 5, 2); }
    if k > 5 { HalvedU(k - 5, 2, 1); }
    if k > 6 { HalvedU(k - 6, 1, 0); }
  }

  lemma HalvedU(k: nat, n: nat, half: nat)
    requires k > 0 && half == n / 2
    ensures Halved(n, k) == Halved(half, k - 1) && Halved(half, 0) == half
  {
  }

  /** The audit cipher turns over the bits of the key's letter for the place. */
  lemma AuditBits(s: string, i: nat, k: nat)
    requires i < |s| && k < 8
    ensures |AuditLog.Obfuscate(s)| == |s|
    ensures Halved(AuditLog.Obfuscate(s)[i] as int, k) % 2
      == (Halved(s[i] as int, k) + Halved("TundraUX2"[i % 9] as int, k)) % 2
  {
    ByteBits(s[i], "TundraUX2"[i % 9], k);
  }
}
